/** Generic building blocks shared by every service: optional values, the error
    taxonomy the services throw, partial updates, and the table operations
    (lookup, filter, projection, ordering) the relational store performs. */
module Common {

  datatype Option<T> = None | Some(value: T)

  /** The exceptions the services raise, with the message each carries.
      `Forbidden` is HTTP 403, `NotFound` 404, `BadRequest` 400,
      `Unauthorized` 401 and `InvalidInput` a plain `Error` (HTTP 500).
      `RecordNotFound` is the store's own error when an `update` or `delete`
      finds no row (Prisma P2025); it is no HTTP exception, so with no
      exception filter installed the client sees HTTP 500. */
  datatype Error =
    | Forbidden(msg: string)
    | NotFound(msg: string)
    | BadRequest(msg: string)
    | Unauthorized(msg: string)
    | InvalidInput(msg: string)
    | RecordNotFound(msg: string)

  datatype Result<T> = Ok(value: T) | Err(error: Error)

  /** One optional field of an update DTO: absent (`Keep`) or present (`Set`). */
  datatype Patch<T> = Keep | Set(value: T)

  function Apply<T>(p: Patch<T>, old_: T): T
  {
    match p
    case Keep => old_
    case Set(v) => v
  }

  /** The first row satisfying `p`, like a `findUnique`/`findFirst` query. */
  function Find<T>(rows: seq<T>, p: T -> bool): (r: Option<T>)
    ensures r.Some? ==> r.value in rows && p(r.value)
    ensures r.None? <==> forall x :: x in rows ==> !p(x)
  {
    if rows == [] then None
    else if p(rows[0]) then Some(rows[0])
    else Find(rows[1..], p)
  }

  /** The rows satisfying `p`, in table order, like a `findMany` with a `where`. */
  function Filter<T>(rows: seq<T>, p: T -> bool): (r: seq<T>)
    ensures forall x :: x in r ==> x in rows && p(x)
    ensures forall x :: x in rows && p(x) ==> x in r
    ensures |r| <= |rows|
  {
    if rows == [] then []
    else if p(rows[0]) then [rows[0]] + Filter(rows[1..], p)
    else Filter(rows[1..], p)
  }

  lemma {:induction false} FilterAppend<T>(rows: seq<T>, x: T, p: T -> bool)
    ensures Filter(rows + [x], p) == Filter(rows, p) + (if p(x) then [x] else [])
  {
    if rows == [] {
      assert rows + [x] == [x];
    } else {
      assert (rows + [x])[1..] == rows[1..] + [x];
      FilterAppend(rows[1..], x, p);
    }
  }

  lemma {:induction false} FilterNone<T>(rows: seq<T>, p: T -> bool)
    requires forall x :: x in rows ==> !p(x)
    ensures Filter(rows, p) == []
  {
    if rows != [] {
      assert rows[0] in rows;
      FilterNone(rows[1..], p);
    }
  }

  /** `rows.map(f)`. */
  function MapSeq<T, U>(rows: seq<T>, f: T -> U): (r: seq<U>)
    ensures |r| == |rows|
    ensures forall i :: 0 <= i < |rows| ==> r[i] == f(rows[i])
    ensures forall x :: x in rows ==> f(x) in r
    ensures forall y :: y in r ==> exists x :: x in rows && y == f(x)
  {
    if rows == [] then [] else [f(rows[0])] + MapSeq(rows[1..], f)
  }

  /** Every row whose `p` holds is rewritten by `f`; the others are kept:
      an `update` whose `where` selects the rows satisfying `p`. */
  function UpdateWhere<T>(rows: seq<T>, p: T -> bool, f: T -> T): (r: seq<T>)
    ensures |r| == |rows|
    ensures forall i :: 0 <= i < |rows| ==> r[i] == if p(rows[i]) then f(rows[i]) else rows[i]
  {
    seq(|rows|, i requires 0 <= i < |rows| => if p(rows[i]) then f(rows[i]) else rows[i])
  }

  ghost predicate SortedBy<T>(s: seq<T>, key: T -> int)
  {
    forall i, j :: 0 <= i < j < |s| ==> key(s[i]) <= key(s[j])
  }

  function Insert<T>(x: T, s: seq<T>, key: T -> int): (r: seq<T>)
    requires SortedBy(s, key)
    ensures SortedBy(r, key)
    ensures multiset(r) == multiset(s) + multiset{x}
    ensures forall k :: 0 <= k < |r| ==> key(x) <= key(r[k]) || (|s| > 0 && key(s[0]) <= key(r[k]))
  {
    if s == [] then [x]
    else if key(x) <= key(s[0]) then [x] + s
    else
      assert s == [s[0]] + s[1..];
      [s[0]] + Insert(x, s[1..], key)
  }

  /** `orderBy: { key: 'asc' }`: a permutation of `s`, ascending by `key`. */
  function SortBy<T>(s: seq<T>, key: T -> int): (r: seq<T>)
    ensures SortedBy(r, key)
    ensures multiset(r) == multiset(s)
  {
    if s == [] then []
    else
      assert s == [s[0]] + s[1..];
      Insert(s[0], SortBy(s[1..], key), key)
  }

  /** A unique column: no two different rows share a value of `key`. */
  ghost predicate KeyUnique<T, K>(rows: seq<T>, key: T -> K)
  {
    forall a, b :: a in rows && b in rows && key(a) == key(b) ==> a == b
  }

  /** `findUnique({ where: { key: k } })`. */
  function FindByKey<T, K(==)>(rows: seq<T>, key: T -> K, k: K): (r: Option<T>)
    ensures r.Some? ==> r.value in rows && key(r.value) == k
    ensures r.None? <==> forall x :: x in rows ==> key(x) != k
  {
    Find(rows, (x: T) => key(x) == k)
  }

  /** On a unique column the lookup returns the one row holding the value. */
  lemma FindByKeyUnique<T, K>(rows: seq<T>, key: T -> K, x: T)
    requires KeyUnique(rows, key)
    requires x in rows
    ensures FindByKey(rows, key, key(x)) == Some(x)
  {
  }

  /** `update({ where: { key: k }, data })`: the rows holding `k` are rewritten by `f`. */
  function UpdateByKey<T, K(==)>(rows: seq<T>, key: T -> K, k: K, f: T -> T): (r: seq<T>)
    ensures |r| == |rows|
    ensures forall i :: 0 <= i < |rows| ==> r[i] == if key(rows[i]) == k then f(rows[i]) else rows[i]
  {
    UpdateWhere(rows, (x: T) => key(x) == k, f)
  }

  /** `delete({ where: { key: k } })`: the rows holding `k` are dropped,
      the others kept in order. */
  function RemoveByKey<T, K(==)>(rows: seq<T>, key: T -> K, k: K): (r: seq<T>)
    ensures forall x :: x in r ==> x in rows && key(x) != k
    ensures forall x :: x in rows && key(x) != k ==> x in r
    ensures KeyUnique(rows, key) ==> KeyUnique(r, key)
  {
    Filter(rows, (x: T) => key(x) != k)
  }

  /** Inserting a row whose key is new keeps the column unique. */
  lemma AppendKeepsKeyUnique<T, K>(rows: seq<T>, x: T, key: T -> K)
    requires KeyUnique(rows, key)
    requires forall y :: y in rows ==> key(y) != key(x)
    ensures KeyUnique(rows + [x], key)
  {
  }

  /** Rewriting the row that holds `target`'s key by an `f` that leaves the key
      alone replaces exactly that row by `f(target)`: every other row is kept,
      the column stays unique and a lookup of the key finds the new row. */
  lemma UpdateByKeyEffect<T, K>(rows: seq<T>, key: T -> K, target: T, f: T -> T)
    requires KeyUnique(rows, key)
    requires target in rows
    requires forall x :: key(f(x)) == key(x)
    ensures var r := UpdateByKey(rows, key, key(target), f);
      && |r| == |rows|
      && (forall x :: x in r <==> (x in rows && key(x) != key(target)) || x == f(target))
      && KeyUnique(r, key)
      && FindByKey(r, key, key(target)) == Some(f(target))
  {
    var k := key(target);
    var r := UpdateByKey(rows, key, k, f);
    assert forall i :: 0 <= i < |rows| && key(rows[i]) == k ==> rows[i] == target;
    var t :| 0 <= t < |rows| && rows[t] == target;
    assert r[t] == f(target);
    forall x | (x in rows && key(x) != k) || x == f(target)
      ensures x in r
    {
      if x != f(target) {
        var i :| 0 <= i < |rows| && rows[i] == x;
        assert r[i] == x;
      }
    }
    assert forall i :: 0 <= i < |r| ==> key(r[i]) == key(rows[i]);
  }

  /** Rewriting rows by an `f` that leaves a second unique column alone keeps
      that column unique. */
  lemma UpdateByKeyKeepsKeyUnique<T, K, K2>(rows: seq<T>, key: T -> K, k: K, f: T -> T, key2: T -> K2)
    requires KeyUnique(rows, key2)
    requires forall x :: key2(f(x)) == key2(x)
    ensures KeyUnique(UpdateByKey(rows, key, k, f), key2)
  {
    var r := UpdateByKey(rows, key, k, f);
    forall a, b | a in r && b in r && key2(a) == key2(b)
      ensures a == b
    {
      var i :| 0 <= i < |r| && r[i] == a;
      var j :| 0 <= j < |r| && r[j] == b;
      assert key2(rows[i]) == key2(a) && key2(rows[j]) == key2(b);
      assert rows[i] == rows[j];
    }
  }
}
