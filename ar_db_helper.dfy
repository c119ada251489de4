/**
 * The points table behind ARDbHelper: rows {id, name, description, latitude, longitude,
 * altitude} with the constraint UNIQUE(latitude, longitude, altitude) ON CONFLICT REPLACE.
 *
 * The first half gives the table's meaning as pure functions (a `Table` value, inserts,
 * WHERE-clause selection) and proves its properties; the class `ARDbHelper` at the end is
 * the helper itself, whose methods change or read the stored rows and are proved against
 * those functions. The SQLite engine is not modelled: an insert that the engine rejects is an
 * oracle input, and row ids come from a counter that only grows.
 */
module Database {
  import opened Objects
  import JavaMath

  /** The columns under the table's UNIQUE ... ON CONFLICT REPLACE constraint. */
  datatype Key = Key(latitude: real, longitude: real, altitude: int)

  function KeyOf(p: Point): Key {
    Key(p.latitude, p.longitude, p.altitude)
  }

  /** The row written for point `p`: the point's columns under the row id `id`. */
  function Stored(p: Point, id: int): (r: Point)
    ensures KeyOf(r) == KeyOf(p) && r.name == p.name && r.description == p.description
  {
    p.(id := id)
  }

  /** The table's rows in row-id order, and the id the next inserted row receives. */
  datatype Table = Table(rows: seq<Point>, nextId: int)

  ghost predicate IdsIncreasing(rows: seq<Point>) {
    forall i, j :: 0 <= i < j < |rows| ==> rows[i].id < rows[j].id
  }

  ghost predicate KeysUnique(rows: seq<Point>) {
    forall i, j :: 0 <= i < j < |rows| ==> KeyOf(rows[i]) != KeyOf(rows[j])
  }

  /** What the schema guarantees: unique row ids below the counter, unique triples. */
  ghost predicate TableValid(t: Table) {
    && 1 <= t.nextId
    && (forall i :: 0 <= i < |t.rows| ==> 1 <= t.rows[i].id < t.nextId)
    && IdsIncreasing(t.rows)
    && KeysUnique(t.rows)
  }

  function Keys(rows: seq<Point>): set<Key> {
    set r | r in rows :: KeyOf(r)
  }

  // ---------------------------------------------------------------------------------------
  // Selection (the WHERE clauses the helper issues)
  // ---------------------------------------------------------------------------------------

  /** A latitude/longitude rectangle; both edges belong to it. */
  datatype Box = Box(latMin: real, latMax: real, lonMin: real, lonMax: real)

  datatype Condition =
    | KeyIsNot(key: Key)            // the rows an ON CONFLICT REPLACE leaves in place
    | InBox(box: Box)               // getPointsAround
    | NameContains(fragment: string) // findPointsByName

  predicate StartsWith(s: string, prefix: string) {
    |prefix| <= |s| && s[..|prefix|] == prefix
  }

  /** `fragment` occurs somewhere in `s` (the model of `name LIKE '%fragment%'`). */
  predicate ContainsSubstring(s: string, fragment: string) {
    StartsWith(s, fragment) || (s != [] && ContainsSubstring(s[1..], fragment))
  }

  predicate Satisfies(p: Point, c: Condition) {
    match c
    case KeyIsNot(k) => KeyOf(p) != k
    case InBox(b) => b.latMin <= p.latitude <= b.latMax && b.lonMin <= p.longitude <= b.lonMax
    case NameContains(s) => ContainsSubstring(p.name, s)
  }

  /** The rows satisfying `c`, in table order. */
  function Select(rows: seq<Point>, c: Condition): (r: seq<Point>)
    ensures |r| <= |rows|
    ensures forall x :: x in r ==> x in rows && Satisfies(x, c)
  {
    if rows == [] then []
    else
      var last := rows[|rows| - 1];
      Select(rows[..|rows| - 1], c) + if Satisfies(last, c) then [last] else []
  }

  // ---------------------------------------------------------------------------------------
  // Inserting
  // ---------------------------------------------------------------------------------------

  /**
   * A successful insert of `p`: any row with the same triple is deleted, and `p` is appended
   * under the next row id. The id column of `p` itself is not written.
   */
  function Insert(t: Table, p: Point): Table {
    Table(Select(t.rows, KeyIsNot(KeyOf(p))) + [Stored(p, t.nextId)], t.nextId + 1)
  }

  /** Insert each point in turn; `fails[i]` says that the engine rejected the i-th insert. */
  function InsertAll(t: Table, points: seq<Point>, fails: seq<bool>): Table
    requires |fails| == |points|
    decreases |points|
  {
    if points == [] then t
    else InsertAll(if fails[0] then t else Insert(t, points[0]), points[1..], fails[1..])
  }

  // ---------------------------------------------------------------------------------------
  // Box query
  // ---------------------------------------------------------------------------------------

  /**
   * The rectangle getPointsAround searches: centre plus or minus `halfSide` degrees, each bound
   * passed through Java's `% 90` (latitudes) or `% 180` (longitudes).
   */
  function BoxAround(location: Location, halfSide: real): Box {
    Box(JavaMath.Rem(location.latitude - halfSide, 90.0),
        JavaMath.Rem(location.latitude + halfSide, 90.0),
        JavaMath.Rem(location.longitude - halfSide, 180.0),
        JavaMath.Rem(location.longitude + halfSide, 180.0))
  }

  // ---------------------------------------------------------------------------------------
  // Lemmas about selection
  // ---------------------------------------------------------------------------------------

  /** Selection keeps every row that satisfies the condition. */
  lemma {:induction false} SelectKeepsMatches(rows: seq<Point>, c: Condition, x: Point)
    requires x in rows && Satisfies(x, c)
    ensures x in Select(rows, c)
  {
    var init := rows[..|rows| - 1];
    if x != rows[|rows| - 1] {
      assert x in init by {
        var k :| 0 <= k < |rows| && rows[k] == x;
        assert k < |rows| - 1 && init[k] == x;
      }
      SelectKeepsMatches(init, c, x);
    }
  }

  /** A row is selected exactly when it is in the table and satisfies the condition. */
  lemma SelectMembership(rows: seq<Point>, c: Condition)
    ensures forall x :: x in Select(rows, c) <==> x in rows && Satisfies(x, c)
  {
    forall x | x in rows && Satisfies(x, c) ensures x in Select(rows, c) {
      SelectKeepsMatches(rows, c, x);
    }
  }

  /** A non-empty table is its first rows followed by its last row. */
  lemma InitThenLast(rows: seq<Point>)
    requires rows != []
    ensures rows[..|rows| - 1] + [rows[|rows| - 1]] == rows
  {
  }

  /** When every row satisfies the condition, selection returns the rows unchanged. */
  lemma {:induction false} SelectAll(rows: seq<Point>, c: Condition)
    requires forall i :: 0 <= i < |rows| ==> Satisfies(rows[i], c)
    ensures Select(rows, c) == rows
  {
    if rows != [] {
      var n := |rows| - 1;
      SelectAll(rows[..n], c);
      InitThenLast(rows);
    }
  }

  /** When no row satisfies the condition, selection is empty. */
  lemma SelectNone(rows: seq<Point>, c: Condition)
    requires forall x :: x in rows ==> !Satisfies(x, c)
    ensures Select(rows, c) == []
  {
  }

  /** Selecting from a table with one more row at the end. */
  lemma SelectSnoc(init: seq<Point>, x: Point, c: Condition)
    ensures Select(init + [x], c) == Select(init, c) + if Satisfies(x, c) then [x] else []
  {
    assert (init + [x])[..|init|] == init;
  }

  /** A suffix of a table is the same suffix of its first rows, followed by the last row. */
  lemma SuffixSnoc(rows: seq<Point>, lo: int)
    requires 0 <= lo < |rows|
    ensures rows[lo..] == rows[..|rows| - 1][lo..] + [rows[|rows| - 1]]
  {
  }

  /** When the i-th row is the only one holding triple `k`, removing `k` removes just that row. */
  lemma {:induction false} WithoutKeyRemovesOne(rows: seq<Point>, k: Key, i: int)
    requires 0 <= i < |rows| && KeyOf(rows[i]) == k
    requires forall j :: 0 <= j < |rows| && j != i ==> KeyOf(rows[j]) != k
    ensures Select(rows, KeyIsNot(k)) == rows[..i] + rows[i + 1..]
  {
    var n := |rows| - 1;
    var init := rows[..n];
    if i == n {
      SelectAll(init, KeyIsNot(k));
    } else {
      WithoutKeyRemovesOne(init, k, i);
      var before, after, last := init[..i], init[i + 1..], rows[n];
      assert Select(rows, KeyIsNot(k)) == (before + after) + [last];
      assert (before + after) + [last] == before + (after + [last]);
      assert rows[..i] == before;
      SuffixSnoc(rows, i + 1);
    }
  }

  /** Appending a row whose id exceeds every id present keeps ids increasing. */
  lemma AppendKeepsIdsIncreasing(rows: seq<Point>, x: Point)
    requires IdsIncreasing(rows) && forall y :: y in rows ==> y.id < x.id
    ensures IdsIncreasing(rows + [x])
  {
    forall i, j | 0 <= i < j < |rows| + 1 ensures (rows + [x])[i].id < (rows + [x])[j].id {
      if j == |rows| { assert rows[i] in rows; }
    }
  }

  /** Appending a row whose triple is not present keeps triples unique. */
  lemma AppendKeepsKeysUnique(rows: seq<Point>, x: Point)
    requires KeysUnique(rows) && forall y :: y in rows ==> KeyOf(y) != KeyOf(x)
    ensures KeysUnique(rows + [x])
  {
    forall i, j | 0 <= i < j < |rows| + 1 ensures KeyOf((rows + [x])[i]) != KeyOf((rows + [x])[j]) {
      if j == |rows| { assert rows[i] in rows; }
    }
  }

  /** Selection keeps the row order, hence increasing ids. */
  lemma {:induction false} SelectKeepsIdsIncreasing(rows: seq<Point>, c: Condition)
    requires IdsIncreasing(rows)
    ensures IdsIncreasing(Select(rows, c))
  {
    if rows != [] {
      var n := |rows| - 1;
      var init, last := rows[..n], rows[n];
      SelectKeepsIdsIncreasing(init, c);
      forall x | x in Select(init, c) ensures x.id < last.id {
        var k :| 0 <= k < |init| && init[k] == x;
      }
      if Satisfies(last, c) { AppendKeepsIdsIncreasing(Select(init, c), last); }
    }
  }

  /** Selection of a table with unique triples still has unique triples. */
  lemma {:induction false} SelectKeepsKeysUnique(rows: seq<Point>, c: Condition)
    requires KeysUnique(rows)
    ensures KeysUnique(Select(rows, c))
  {
    if rows != [] {
      var n := |rows| - 1;
      var init, last := rows[..n], rows[n];
      SelectKeepsKeysUnique(init, c);
      forall x | x in Select(init, c) ensures KeyOf(x) != KeyOf(last) {
        var k :| 0 <= k < |init| && init[k] == x;
      }
      if Satisfies(last, c) { AppendKeepsKeysUnique(Select(init, c), last); }
    }
  }

  /** `fragment` occupies the positions i .. i + |fragment| - 1 of `s`. */
  ghost predicate OccursAt(s: string, fragment: string, i: int) {
    0 <= i <= |s| - |fragment| && s[i..i + |fragment|] == fragment
  }

  /** `ContainsSubstring` holds exactly when the fragment occurs at some position. */
  lemma {:induction false} ContainsSubstringIff(s: string, fragment: string)
    ensures ContainsSubstring(s, fragment) <==> exists i :: OccursAt(s, fragment, i)
  {
    var n := |fragment|;
    if StartsWith(s, fragment) {
      assert OccursAt(s, fragment, 0);
    } else if s != [] {
      ContainsSubstringIff(s[1..], fragment);
      if exists i :: OccursAt(s, fragment, i) {
        var i :| OccursAt(s, fragment, i);
        assert i != 0;
        assert s[1..][i - 1..i - 1 + n] == s[i..i + n];
        assert OccursAt(s[1..], fragment, i - 1);
      }
      if ContainsSubstring(s[1..], fragment) {
        var j :| OccursAt(s[1..], fragment, j);
        assert s[1..][j..j + n] == s[j + 1..j + 1 + n];
        assert OccursAt(s, fragment, j + 1);
      }
    }
  }

  // ---------------------------------------------------------------------------------------
  // Lemmas about inserting
  // ---------------------------------------------------------------------------------------

  /** An insert keeps the schema's guarantees. */
  lemma InsertPreservesValid(t: Table, p: Point)
    requires TableValid(t)
    ensures TableValid(Insert(t, p))
  {
    var kept := Select(t.rows, KeyIsNot(KeyOf(p)));
    SelectKeepsIdsIncreasing(t.rows, KeyIsNot(KeyOf(p)));
    SelectKeepsKeysUnique(t.rows, KeyIsNot(KeyOf(p)));
    var rows := Insert(t, p).rows;
    assert rows == kept + [Stored(p, t.nextId)];
    forall x | x in kept ensures 1 <= x.id < t.nextId && KeyOf(x) != KeyOf(p) {
      var k :| 0 <= k < |t.rows| && t.rows[k] == x;
    }
    forall i | 0 <= i < |rows| ensures 1 <= rows[i].id < t.nextId + 1 {
      if i < |kept| { assert rows[i] == kept[i] && kept[i] in kept; }
    }
    forall i, j | 0 <= i < j < |rows| ensures rows[i].id < rows[j].id && KeyOf(rows[i]) != KeyOf(rows[j]) {
      assert rows[i] == kept[i] && kept[i] in kept;
      if j < |kept| { assert rows[j] == kept[j]; }
    }
  }

  /** Last write wins: after an insert the only row with `p`'s triple is `p`'s new row, and
      rows with any other triple are exactly those that were there before. */
  lemma InsertIsUpsert(t: Table, p: Point)
    ensures Stored(p, t.nextId) in Insert(t, p).rows
    ensures forall r :: r in Insert(t, p).rows && KeyOf(r) == KeyOf(p) ==> r == Stored(p, t.nextId)
    ensures forall r :: KeyOf(r) != KeyOf(p) ==> (r in Insert(t, p).rows <==> r in t.rows)
    ensures Insert(t, p).nextId == t.nextId + 1
  {
    SelectMembership(t.rows, KeyIsNot(KeyOf(p)));
  }

  /** Inserting a triple the table does not hold appends exactly one row and changes no other. */
  lemma InsertAddsNew(t: Table, p: Point)
    requires KeyOf(p) !in Keys(t.rows)
    ensures Insert(t, p).rows == t.rows + [Stored(p, t.nextId)]
    ensures |Insert(t, p).rows| == |t.rows| + 1
  {
    assert forall i :: 0 <= i < |t.rows| ==> KeyOf(t.rows[i]) in Keys(t.rows);
    SelectAll(t.rows, KeyIsNot(KeyOf(p)));
  }

  /** Inserting a triple already held by row i replaces that row: the count is unchanged, the
      old row (with its name and description) is gone, and every other row stays in order. */
  lemma InsertReplacesExisting(t: Table, p: Point, i: int)
    requires TableValid(t)
    requires 0 <= i < |t.rows| && KeyOf(t.rows[i]) == KeyOf(p)
    ensures Insert(t, p).rows == t.rows[..i] + t.rows[i + 1..] + [Stored(p, t.nextId)]
    ensures |Insert(t, p).rows| == |t.rows|
    ensures t.rows[i] !in Insert(t, p).rows
  {
    WithoutKeyRemovesOne(t.rows, KeyOf(p), i);
  }

  /** The triples after an insert are the previous ones plus the inserted point's. */
  lemma InsertKeys(t: Table, p: Point)
    ensures Keys(Insert(t, p).rows) == Keys(t.rows) + {KeyOf(p)}
  {
    var rows := Insert(t, p).rows;
    InsertIsUpsert(t, p);
    forall k | k in Keys(t.rows) + {KeyOf(p)} ensures k in Keys(rows) {
      if k != KeyOf(p) {
        var r :| r in t.rows && KeyOf(r) == k;
        assert r in rows;
      } else {
        assert KeyOf(Stored(p, t.nextId)) == k;
      }
    }
  }

  /** A batch insert keeps the schema's guarantees. */
  lemma {:induction false} InsertAllPreservesValid(t: Table, points: seq<Point>, fails: seq<bool>)
    requires |fails| == |points| && TableValid(t)
    ensures TableValid(InsertAll(t, points, fails))
    decreases |points|
  {
    if points != [] {
      if !fails[0] { InsertPreservesValid(t, points[0]); }
      InsertAllPreservesValid(if fails[0] then t else Insert(t, points[0]), points[1..], fails[1..]);
    }
  }

  /** The triples of the points whose insert succeeded. */
  ghost function AcceptedKeys(points: seq<Point>, fails: seq<bool>): set<Key>
    requires |fails| == |points|
  {
    set i | 0 <= i < |points| && !fails[i] :: KeyOf(points[i])
  }

  /** The accepted triples of a batch are those of its first point, if accepted, and of the rest. */
  lemma AcceptedKeysSplit(points: seq<Point>, fails: seq<bool>)
    requires |fails| == |points| && points != []
    ensures AcceptedKeys(points, fails) ==
            (if fails[0] then {} else {KeyOf(points[0])}) + AcceptedKeys(points[1..], fails[1..])
  {
    var rest := AcceptedKeys(points[1..], fails[1..]);
    forall k | k in AcceptedKeys(points, fails)
      ensures k in (if fails[0] then {} else {KeyOf(points[0])}) + rest
    {
      var i :| 0 <= i < |points| && !fails[i] && KeyOf(points[i]) == k;
      if i > 0 { assert !fails[1..][i - 1] && KeyOf(points[1..][i - 1]) == k; }
    }
    forall k | k in rest ensures k in AcceptedKeys(points, fails) {
      var i :| 0 <= i < |points| - 1 && !fails[1..][i] && KeyOf(points[1..][i]) == k;
      assert !fails[i + 1] && KeyOf(points[i + 1]) == k;
    }
  }

  /** After a batch insert the table holds the old triples plus those of the accepted points. */
  lemma {:induction false} InsertAllKeys(t: Table, points: seq<Point>, fails: seq<bool>)
    requires |fails| == |points|
    ensures Keys(InsertAll(t, points, fails).rows) == Keys(t.rows) + AcceptedKeys(points, fails)
    decreases |points|
  {
    if points != [] {
      var next := if fails[0] then t else Insert(t, points[0]);
      if !fails[0] { InsertKeys(t, points[0]); }
      InsertAllKeys(next, points[1..], fails[1..]);
      AcceptedKeysSplit(points, fails);
    }
  }


  // ---------------------------------------------------------------------------------------
  // Lemmas about the box query
  // ---------------------------------------------------------------------------------------

  /** Away from the poles and the antimeridian the `%` changes nothing, and the box is the
      square of half-side `halfSide` centred on the location. */
  lemma BoxAroundIsSquare(location: Location, halfSide: real)
    requires -90.0 < location.latitude - halfSide < 90.0
    requires -90.0 < location.latitude + halfSide < 90.0
    requires -180.0 < location.longitude - halfSide < 180.0
    requires -180.0 < location.longitude + halfSide < 180.0
    ensures BoxAround(location, halfSide) ==
            Box(location.latitude - halfSide, location.latitude + halfSide,
                location.longitude - halfSide, location.longitude + halfSide)
  {
    JavaMath.RemInsideIsIdentity(location.latitude - halfSide, 90.0);
    JavaMath.RemInsideIsIdentity(location.latitude + halfSide, 90.0);
    JavaMath.RemInsideIsIdentity(location.longitude - halfSide, 180.0);
    JavaMath.RemInsideIsIdentity(location.longitude + halfSide, 180.0);
  }

  /** Under the same conditions, a row is returned exactly when it lies within `halfSide`
      degrees of the location on both axes, edges included. */
  lemma QueryAroundIsSquare(rows: seq<Point>, location: Location, halfSide: real)
    requires -90.0 < location.latitude - halfSide < 90.0
    requires -90.0 < location.latitude + halfSide < 90.0
    requires -180.0 < location.longitude - halfSide < 180.0
    requires -180.0 < location.longitude + halfSide < 180.0
    ensures forall x :: x in Select(rows, InBox(BoxAround(location, halfSide))) <==>
      && x in rows
      && location.latitude - halfSide <= x.latitude <= location.latitude + halfSide
      && location.longitude - halfSide <= x.longitude <= location.longitude + halfSide
  {
    BoxAroundIsSquare(location, halfSide);
    SelectMembership(rows, InBox(BoxAround(location, halfSide)));
  }

  /** Crossing the antimeridian eastwards, `% 180` wraps the upper longitude bound below the
      lower one, so the query returns nothing at all, not even a point at the location itself. */
  lemma QueryAcrossAntimeridianIsEmpty(rows: seq<Point>, location: Location, halfSide: real)
    requires 0.0 < halfSide < 90.0 && location.longitude <= 180.0
    requires -180.0 < location.longitude - halfSide
    requires 180.0 <= location.longitude + halfSide
    ensures Select(rows, InBox(BoxAround(location, halfSide))) == []
  {
    var box := BoxAround(location, halfSide);
    JavaMath.RemInsideIsIdentity(location.longitude - halfSide, 180.0);
    JavaMath.RemAboveWrapsOnce(location.longitude + halfSide, 180.0);
    assert box.lonMax < box.lonMin;
    SelectNone(rows, InBox(box));
  }

  /** Likewise near the north pole: `% 90` wraps the upper latitude bound below the lower one. */
  lemma QueryAcrossNorthPoleIsEmpty(rows: seq<Point>, location: Location, halfSide: real)
    requires 0.0 < halfSide < 45.0 && location.latitude <= 90.0
    requires -90.0 < location.latitude - halfSide
    requires 90.0 <= location.latitude + halfSide
    ensures Select(rows, InBox(BoxAround(location, halfSide))) == []
  {
    var box := BoxAround(location, halfSide);
    JavaMath.RemInsideIsIdentity(location.latitude - halfSide, 90.0);
    JavaMath.RemAboveWrapsOnce(location.latitude + halfSide, 90.0);
    assert box.latMax < box.latMin;
    SelectNone(rows, InBox(box));
  }

  /** Crossing the antimeridian westwards, `% 180` wraps the lower longitude bound above the
      upper one, and the query again returns nothing. */
  lemma QueryWestOfAntimeridianIsEmpty(rows: seq<Point>, location: Location, halfSide: real)
    requires 0.0 < halfSide < 90.0 && -180.0 <= location.longitude
    requires location.longitude - halfSide <= -180.0
    requires location.longitude + halfSide < 180.0
    ensures Select(rows, InBox(BoxAround(location, halfSide))) == []
  {
    var box := BoxAround(location, halfSide);
    JavaMath.RemBelowWrapsOnce(location.longitude - halfSide, 180.0);
    JavaMath.RemInsideIsIdentity(location.longitude + halfSide, 180.0);
    assert box.lonMax < box.lonMin;
    SelectNone(rows, InBox(box));
  }

  /** Likewise near the south pole: `% 90` wraps the lower latitude bound above the upper one. */
  lemma QueryAcrossSouthPoleIsEmpty(rows: seq<Point>, location: Location, halfSide: real)
    requires 0.0 < halfSide < 45.0 && -90.0 <= location.latitude
    requires location.latitude - halfSide <= -90.0
    requires location.latitude + halfSide < 90.0
    ensures Select(rows, InBox(BoxAround(location, halfSide))) == []
  {
    var box := BoxAround(location, halfSide);
    JavaMath.RemBelowWrapsOnce(location.latitude - halfSide, 90.0);
    JavaMath.RemInsideIsIdentity(location.latitude + halfSide, 90.0);
    assert box.latMax < box.latMin;
    SelectNone(rows, InBox(box));
  }

  // ---------------------------------------------------------------------------------------
  // The helper
  // ---------------------------------------------------------------------------------------

  /** The database helper: the points table it reads and writes, held as its rows. */
  class ARDbHelper {
    var rows: seq<Point>
    var nextId: int

    ghost predicate Valid()
      reads this
    {
      TableValid(Table(rows, nextId))
    }

    function Model(): Table
      reads this
    {
      Table(rows, nextId)
    }

    /** A freshly created database: the table exists and is empty. */
    constructor ()
      ensures Valid() && rows == []
    {
      rows := [];
      nextId := 1;
    }

    /** Deletes every row of the points table. */
    method ClearTable()
      requires Valid()
      modifies this
      ensures Valid() && rows == [] && nextId == old(nextId)
    {
      rows := [];
    }

    /** Every stored row, in table order (one cursor pass). */
    method GetAllPoints() returns (points: seq<Point>)
      ensures points == rows
    {
      points := [];
      for i := 0 to |rows|
        invariant points == rows[..i]
      {
        points := points + [rows[i]];
      }
    }

    /**
     * The rows inside the box around `location` whose half-side is
     * `metersToDegrees(distance)` degrees, edges included. `metersToDegrees` stands for the
     * planar conversion of PointService, which is not part of this model.
     */
    method GetPointsAround(location: Location, distance: int, metersToDegrees: int -> real)
      returns (points: seq<Point>)
      ensures points == Select(rows, InBox(BoxAround(location, metersToDegrees(distance))))
      ensures var box := BoxAround(location, metersToDegrees(distance));
              forall p :: p in points <==>
                && p in rows
                && box.latMin <= p.latitude <= box.latMax
                && box.lonMin <= p.longitude <= box.lonMax
    {
      var where := InBox(BoxAround(location, metersToDegrees(distance)));
      points := [];
      for i := 0 to |rows|
        invariant points == Select(rows[..i], where)
      {
        assert rows[..i + 1] == rows[..i] + [rows[i]];
        SelectSnoc(rows[..i], rows[i], where);
        if Satisfies(rows[i], where) {
          points := points + [rows[i]];
        }
      }
      assert rows[..|rows|] == rows;
      SelectMembership(rows, where);
    }

    /** The rows whose name contains `name`, in table order. */
    method FindPointsByName(name: string) returns (points: seq<Point>)
      ensures points == Select(rows, NameContains(name))
      ensures forall p :: p in points <==> p in rows && ContainsSubstring(p.name, name)
    {
      var where := NameContains(name);
      points := [];
      for i := 0 to |rows|
        invariant points == Select(rows[..i], where)
      {
        assert rows[..i + 1] == rows[..i] + [rows[i]];
        SelectSnoc(rows[..i], rows[i], where);
        if ContainsSubstring(rows[i].name, name) {
          points := points + [rows[i]];
        }
      }
      assert rows[..|rows|] == rows;
      SelectMembership(rows, where);
    }

    /**
     * Inserts `p` with the table's conflict policy. `fails` is the engine's verdict, which
     * this model does not decide: on failure the result is -1 and the table is unchanged,
     * otherwise the result is the new row's id.
     */
    method InsertPoint(p: Point, fails: bool) returns (id: int)
      requires Valid()
      modifies this
      ensures Valid()
      ensures id == -1 <==> fails
      ensures fails ==> Model() == old(Model())
      ensures !fails ==> 1 <= id && id == old(nextId) && Model() == Insert(old(Model()), p)
    {
      if fails {
        id := -1;
      } else {
        InsertPreservesValid(Model(), p);
        id := nextId;
        var t := Insert(Model(), p);
        rows, nextId := t.rows, t.nextId;
      }
    }

    /** Inserts one point; same outcome as InsertPoint. */
    method AddPoint(p: Point, fails: bool) returns (id: int)
      requires Valid()
      modifies this
      ensures Valid()
      ensures id == -1 <==> fails
      ensures fails ==> Model() == old(Model())
      ensures !fails ==> 1 <= id && id == old(nextId) && Model() == Insert(old(Model()), p)
    {
      id := InsertPoint(p, fails);
    }

    /**
     * Inserts the points in order; `insertFails[i]` is the engine's verdict on the i-th one.
     * The result counts the inserts while all succeed and sticks at -1 after the first failure.
     */
    method AddPoints(points: seq<Point>, insertFails: seq<bool>) returns (result: int)
      requires Valid() && |insertFails| == |points|
      modifies this
      ensures Valid()
      ensures Model() == InsertAll(old(Model()), points, insertFails)
      ensures result == if true in insertFails then -1 else |points|
    {
      result := 0;
      for i := 0 to |points|
        invariant Valid()
        invariant InsertAll(old(Model()), points, insertFails) ==
                  InsertAll(Model(), points[i..], insertFails[i..])
        invariant result == if true in insertFails[..i] then -1 else i
      {
        assert points[i..][1..] == points[i + 1..] && insertFails[i..][1..] == insertFails[i + 1..];
        assert insertFails[..i + 1] == insertFails[..i] + [insertFails[i]];
        var id := InsertPoint(points[i], insertFails[i]);
        if id != -1 && result != -1 {
          result := result + 1;
        } else {
          result := -1;
        }
      }
      assert insertFails[..|points|] == insertFails;
    }
  }
}
