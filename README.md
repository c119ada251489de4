# Mountains Finder AR: point table and location-fix gating

This project models two pieces of the Android app *Mountains Finder AR* and proves properties of them in Dafny.

1. **The points table behind `ARDbHelper`** (`ar_db_helper.dfy`, module `Database`). The table holds rows
   `{id, name, description, latitude, longitude, altitude}`. The schema makes `(latitude, longitude, altitude)`
   unique with `ON CONFLICT REPLACE`. So an insert whose triple is already present deletes the old row and
   adds the new one under a fresh row id (last write wins).
   - The meaning of the table is given by pure functions: `Table`, `Insert`, `InsertAll`, and `Select` with
     a `Condition` datatype for the three WHERE clauses the helper issues.
   - The class `ARDbHelper` holds the rows as a field. Its methods are proved against those functions.
     - `InsertPoint` and `AddPoint` insert one point.
     - `AddPoints` is the batch loop with its sticky `-1` result.
     - `ClearTable` deletes every row.
     - `GetAllPoints`, `GetPointsAround` and `FindPointsByName` are the three cursor loops.
   - The box query computes its bounds as `centre ± metersToDegrees(distance)` and passes them through Java's
     `% 90` and `% 180`. In Java, `%` truncates, so the result has the sign of the dividend. This is modelled
     in `java_math.dfy` (module `JavaMath`).
2. **The location-fix handling of `AugmentedRealityFragment`** (`augmented_reality_fragment.dfy`, module `Fragments`).
   This is a class with the screen's four fields, plus the overlay's content and the GPS status line:
   - `lastGpsLocation`
   - `points`
   - `userLocationAtLastDbReading`
   - `userLocationPoint`

   The class has two methods:
   - `OnLocationChanged` rejects fixes older than 180 000 ms. On the first fix, or after a move of more than
     500 m, it reloads points from the database in a 10 000 m square. On the first fix, or after a move of
     more than 10 m, it rebuilds the user's point and hands the re-sorted points to the overlay. It ends with
     the status update.
   - `UpdateGpsStatus` clears the overlay when the GPS provider is disabled, or when there is no valid fix.

`objects.dfy` (module `Objects`) holds the `Point` row and the parts of an Android `Location` that are read:
latitude, longitude, altitude and fix time. Coordinates are `real`, altitudes and times are integers.

Several inputs are parameters of the model:
- the SQLite engine's decision to reject an insert (the `-1` result)
- the clock (`System.currentTimeMillis()`)
- whether the GPS provider is enabled
- the floating-point code the screen calls, which is not part of this model (`Location.distanceTo`,
  `Point.distanceTo`, `PointService.metersToDegrees`, `PointService.sortPointsByRelativeAzimuth`).
  These enter as the function-typed fields of a `Services` value, or as a function argument.

Two behaviours of the code are worth knowing:
- The query bounds pass through `% 180` and `% 90`. Crossing the antimeridian eastwards wraps the upper
  longitude bound below the lower one. Crossing it westwards wraps the lower bound above the upper one. The
  same happens to the latitude bounds at the north and south poles. In all four cases the query returns
  nothing at all (`QueryAcrossAntimeridianIsEmpty`, `QueryWestOfAntimeridianIsEmpty`,
  `QueryAcrossNorthPoleIsEmpty`, `QueryAcrossSouthPoleIsEmpty`).
- `addPoints` returns a single `-1` as soon as any insert fails, even if later inserts succeed.

## Model

| member | source | states |
|---|---|---|
| `JavaMath.Trunc` | app/src/main/java/com/louisnard/mountainsfinderar/model/database/ARDbHelper.java:131-134 | Rounds toward zero: the result is within one of the argument, on the zero side |
| `JavaMath.RemBounds` | app/src/main/java/com/louisnard/mountainsfinderar/model/database/ARDbHelper.java:131-134 | Java's `%` with divisor 90 or 180 has the sign of the dividend and is smaller in size than the divisor |
| `JavaMath.RemInsideIsIdentity` | app/src/main/java/com/louisnard/mountainsfinderar/model/database/ARDbHelper.java:131-134 | `a % 90` (resp. `% 180`) is `a` whenever `a` lies strictly between -90 and 90 (resp. -180 and 180) |
| `JavaMath.Rem` | app/src/main/java/com/louisnard/mountainsfinderar/model/database/ARDbHelper.java:131-134 | Java's `%` on doubles: the dividend minus the divisor times the quotient truncated toward zero. Its properties are the lemmas below |
| `JavaMath.RemAboveWrapsOnce` | app/src/main/java/com/louisnard/mountainsfinderar/model/database/ARDbHelper.java:131-134 | From one period up to two, `%` subtracts exactly one period |
| `JavaMath.RemBelowWrapsOnce` | app/src/main/java/com/louisnard/mountainsfinderar/model/database/ARDbHelper.java:131-134 | From minus two periods up to minus one period, `%` adds exactly one period |
| `JavaMath.Div` | app/src/main/java/com/louisnard/mountainsfinderar/fragments/AugmentedRealityFragment.java:302 | Java's long division truncates toward zero, so a fix stamped in the future gives a non-positive number of seconds |
| `Database.Satisfies` | app/src/main/java/com/louisnard/mountainsfinderar/model/database/ARDbHelper.java:137-138 | The WHERE clauses: another triple (the rows a replace-on-conflict keeps), the inclusive box `latMin <= latitude <= latMax AND lonMin <= longitude <= lonMax`, and name containment (the clause of `findPointsByName`, line 157) |
| `Database.ContainsSubstring` | app/src/main/java/com/louisnard/mountainsfinderar/model/database/ARDbHelper.java:157 | The name test `name LIKE '%fragment%'` read as plain containment; `ContainsSubstringIff` ties it to "occurs at some position" |
| `Database.BoxAround` | app/src/main/java/com/louisnard/mountainsfinderar/model/database/ARDbHelper.java:131-134 | The four query bounds: centre minus and plus the half-side, latitudes taken `% 90`, longitudes `% 180`. `BoxAroundIsSquare` and the four emptiness lemmas state what they come to |
| `Database.Select` | app/src/main/java/com/louisnard/mountainsfinderar/model/database/ARDbHelper.java:137-143 | A WHERE selection returns no more rows than the table, and only rows of the table that satisfy the condition |
| `Database.SelectMembership` | app/src/main/java/com/louisnard/mountainsfinderar/model/database/ARDbHelper.java:137-146 | A row is selected if and only if it is in the table and satisfies the condition |
| `Database.ContainsSubstringIff` | app/src/main/java/com/louisnard/mountainsfinderar/model/database/ARDbHelper.java:157 | The name filter holds exactly when the fragment occurs at some position of the name |
| `Database.Insert` | app/src/main/java/com/louisnard/mountainsfinderar/model/database/ARDbHelper.java:48-55 | One successful insert under `ON CONFLICT REPLACE`: rows with the point's triple are deleted and the point is appended under the next row id (the `db.insert` at line 212). `InsertIsUpsert`, `InsertAddsNew`, `InsertReplacesExisting`, `InsertKeys` and `InsertPreservesValid` state what that means |
| `Database.InsertAll` | app/src/main/java/com/louisnard/mountainsfinderar/model/database/ARDbHelper.java:187-193 | The batch loop's effect on the table: the points inserted in order, skipping those the engine rejects. `InsertAllKeys` and `InsertAllPreservesValid` state what that means |
| `Database.InsertIsUpsert` | app/src/main/java/com/louisnard/mountainsfinderar/model/database/ARDbHelper.java:48-55 | After an insert, the new row is present and is the only row with its triple; rows with any other triple are exactly the previous ones |
| `Database.InsertAddsNew` | app/src/main/java/com/louisnard/mountainsfinderar/model/database/ARDbHelper.java:205-212 | Inserting a triple the table does not hold appends exactly one row and leaves every other row unchanged |
| `Database.InsertReplacesExisting` | app/src/main/java/com/louisnard/mountainsfinderar/model/database/ARDbHelper.java:48-55 | Inserting a triple held by row i removes just that row and appends the new one: the count is unchanged and the old row (with its name and description) is gone |
| `Database.InsertPreservesValid` | app/src/main/java/com/louisnard/mountainsfinderar/model/database/ARDbHelper.java:48-55 | An insert keeps the triples unique, the row ids unique and increasing, and all ids below the counter |
| `Database.InsertKeys` | app/src/main/java/com/louisnard/mountainsfinderar/model/database/ARDbHelper.java:48-55 | The set of triples after an insert is the previous set plus the inserted point's triple |
| `Database.InsertAllPreservesValid` | app/src/main/java/com/louisnard/mountainsfinderar/model/database/ARDbHelper.java:184-196 | A batch insert, whatever its failures, keeps the table's uniqueness guarantees |
| `Database.InsertAllKeys` | app/src/main/java/com/louisnard/mountainsfinderar/model/database/ARDbHelper.java:184-196 | After a batch insert, the table holds the previous triples plus exactly those of the points whose insert succeeded |
| `Database.BoxAroundIsSquare` | app/src/main/java/com/louisnard/mountainsfinderar/model/database/ARDbHelper.java:122-134 | When every bound stays strictly within (-90, 90) or (-180, 180), the `%` changes nothing and the box is the square of half-side `metersToDegrees(distance)` centred on the location |
| `Database.QueryAroundIsSquare` | app/src/main/java/com/louisnard/mountainsfinderar/model/database/ARDbHelper.java:122-146 | Under the same conditions, a row is returned exactly when it is within the half-side of the location on both axes, edges included |
| `Database.QueryAcrossAntimeridianIsEmpty` | app/src/main/java/com/louisnard/mountainsfinderar/model/database/ARDbHelper.java:133-134 | When the box reaches longitude 180, `% 180` wraps the upper bound below the lower one and the query returns no row |
| `Database.QueryAcrossNorthPoleIsEmpty` | app/src/main/java/com/louisnard/mountainsfinderar/model/database/ARDbHelper.java:131-132 | When the box reaches latitude 90 (half-side under 45 degrees), `% 90` wraps the upper bound below the lower one and the query returns no row |
| `Database.QueryWestOfAntimeridianIsEmpty` | app/src/main/java/com/louisnard/mountainsfinderar/model/database/ARDbHelper.java:133-134 | When the box reaches longitude -180, `% 180` wraps the lower bound above the upper one and the query returns no row |
| `Database.QueryAcrossSouthPoleIsEmpty` | app/src/main/java/com/louisnard/mountainsfinderar/model/database/ARDbHelper.java:131-132 | When the box reaches latitude -90 (half-side under 45 degrees), `% 90` wraps the lower bound above the upper one and the query returns no row |
| `Database.ARDbHelper.constructor` | app/src/main/java/com/louisnard/mountainsfinderar/model/database/ARDbHelper.java:78-81 | A newly created table is empty and satisfies the schema's guarantees |
| `Database.ARDbHelper.ClearTable` | app/src/main/java/com/louisnard/mountainsfinderar/model/database/ARDbHelper.java:100-104 | Afterwards the table is empty |
| `Database.ARDbHelper.GetAllPoints` | app/src/main/java/com/louisnard/mountainsfinderar/model/database/ARDbHelper.java:110-120 | Returns every stored row (in row-id order; see Left out) |
| `Database.ARDbHelper.GetPointsAround` | app/src/main/java/com/louisnard/mountainsfinderar/model/database/ARDbHelper.java:129-147 | Returns exactly the rows with `latMin <= latitude <= latMax` and `lonMin <= longitude <= lonMax` for the `%`-wrapped bounds, in row-id order (see Left out), and changes nothing |
| `Database.ARDbHelper.FindPointsByName` | app/src/main/java/com/louisnard/mountainsfinderar/model/database/ARDbHelper.java:154-165 | Returns exactly the stored rows whose name contains `name`, in row-id order (see Left out) |
| `Database.ARDbHelper.InsertPoint` | app/src/main/java/com/louisnard/mountainsfinderar/model/database/ARDbHelper.java:205-217 | Returns -1 exactly when the engine rejects the insert, and then the table is unchanged. Otherwise it returns the new row's positive id, and the table is the replace-on-conflict insert of the point |
| `Database.ARDbHelper.AddPoint` | app/src/main/java/com/louisnard/mountainsfinderar/model/database/ARDbHelper.java:172-177 | Same outcome as InsertPoint |
| `Database.ARDbHelper.AddPoints` | app/src/main/java/com/louisnard/mountainsfinderar/model/database/ARDbHelper.java:184-196 | Returns `points.size()` when every insert succeeds, and -1 when any insert fails, even if later ones succeed. The table is the in-order insert of the accepted points |
| `Fragments.IsFresh` | app/src/main/java/com/louisnard/mountainsfinderar/fragments/AugmentedRealityFragment.java:222 | A fix is valid while its time is at least `now - 180000` ms; a fix exactly 180 000 ms old is still valid |
| `Fragments.NeedsReload` | app/src/main/java/com/louisnard/mountainsfinderar/fragments/AugmentedRealityFragment.java:226 | Points are reloaded when none are loaded, when no reading location is recorded, or when the fix is more than 500 m from the reading location |
| `Fragments.NeedsRecalculation` | app/src/main/java/com/louisnard/mountainsfinderar/fragments/AugmentedRealityFragment.java:235 | The user's point is rebuilt when there is none, or when the fix is more than 10 m from it |
| `Fragments.PointsAround` | app/src/main/java/com/louisnard/mountainsfinderar/fragments/AugmentedRealityFragment.java:228-229 | The reload always queries the 10 000 m box around the fix; `LoadedPointsLieInSearchSquare` states which rows that returns |
| `Fragments.LoadedPointsLieInSearchSquare` | app/src/main/java/com/louisnard/mountainsfinderar/fragments/AugmentedRealityFragment.java:226-229 | Away from the poles and the antimeridian, the points loaded around a fix are exactly the rows within `metersToDegrees(10000)` degrees of it |
| `Fragments.AugmentedRealityFragment.constructor` | app/src/main/java/com/louisnard/mountainsfinderar/fragments/AugmentedRealityFragment.java:77-85 | The four fields start null, and the screen's invariant holds |
| `Fragments.AugmentedRealityFragment.UpdateGpsStatus` | app/src/main/java/com/louisnard/mountainsfinderar/fragments/AugmentedRealityFragment.java:289-310 | Nothing changes while the screen is detached. A disabled provider forgets the last fix, clears the overlay and shows the disabled message. An enabled provider with a fix at most 180 000 ms old shows its age in whole seconds and keeps the overlay. Without such a fix it shows the waiting message and clears the overlay. Points, the reading location and the user's point never change |
| `Fragments.AugmentedRealityFragment.OnLocationChanged` | app/src/main/java/com/louisnard/mountainsfinderar/fragments/AugmentedRealityFragment.java:213-244 | A fix older than `now - 180000` leaves points, the reading location and the user's point unchanged, and also the last fix while GPS is enabled. A fix exactly 180000 ms old is accepted. A fresh fix becomes the last fix while GPS is enabled, and leaves points loaded. Points are reloaded (10 000 m square, and the reading location set to the fix) exactly on the first fix or after a move of more than 500 m. The user's point is rebuilt and the overlay given the re-sorted points exactly on the first fix or after a move of more than 10 m. The closing status update shows the disabled message, the waiting message, or (GPS enabled and the last fix still valid at `statusNow`) the fix's age in whole seconds. The invariant "points and reading location set together, user point only with points, overlay drawn only with a fix" is preserved |

## Left out

- SQLite engine internals are not modelled: `SQLiteOpenHelper`, cursors, `ContentValues`, `getReadableDatabase`/`getWritableDatabase`/`close`, and `onUpgrade` (which does nothing). The table's contract is modelled instead.
- Why an insert fails is not modelled. The engine's verdict is an input (`fails`, `insertFails`).
- Row ids come from a counter that only grows, even after `ClearTable`. SQLite's own rowid choice (largest id plus one, so ids restart after a clear) is not modelled. Ids stay unique and increase in table order.
- `getInstance` (the process-wide singleton) and `getDbName` (a constant) carry no behaviour. The screen holds one helper as a constant field.
- `clearTable(tableName)` takes the table's name. The model has a single table, so the parameter is dropped.
- `addPointsAsynchronously` and its `AsyncTask` are threading. Their listener receives the result of `addPoints(points)`, which `AddPoints` models.
- `Database.ARDbHelper.FindPointsByName`: plain case-sensitive substring containment. SQL `LIKE` is case-insensitive for ASCII letters, treats `%` and `_` in `name` as wildcards, and breaks on a quote in `name`. Rows with a NULL name, which `LIKE` never matches, cannot occur in the model.
- `Database.ARDbHelper.GetAllPoints`, `Database.ARDbHelper.GetPointsAround`, `Database.ARDbHelper.FindPointsByName`: these return rows in row-id order. The SQL queries have no `ORDER BY`, so SQLite may return them in any order, for instance in latitude order through the unique index. The model fixes one order where the source leaves it open.
- `Fragments.AugmentedRealityFragment.UpdateGpsStatus`: the code reads the clock twice, once for the validity check and again for the displayed age. The model uses one reading, `now`, for both, so it does not capture a clock that moves between the two reads.
- The bounds of the box query go through `String.valueOf` and back through SQLite's numeric affinity. The model compares the real values directly.
- Floating point is not modelled. Coordinates and distances are exact reals, and the distance tests compare a real with 500 and with 10.
- `JavaMath.RemBounds`, `JavaMath.RemInsideIsIdentity`, `JavaMath.RemAboveWrapsOnce`, `JavaMath.RemBelowWrapsOnce`: these are stated only for the divisors 90 and 180 that the query uses, not for every divisor Java accepts.
- `PointService.metersToDegrees`, `Location.distanceTo`, `Point.distanceTo` and `PointService.sortPointsByRelativeAzimuth` are inputs. The files that define them (`Compass`, `PointService`, `Point`) are not part of this model. Great-circle maths, bearing sort and compass filtering are therefore absent.
- `Point(String, Location)` is not shown. So the user's point is identified with the fix it was built from, and its label is dropped.
- `OnLocationChanged` is modelled with the screen attached. The location listener is registered in `onResume` and removed in `onPause`, so updates arrive only while the screen is attached. `UpdateGpsStatus` keeps its `isAdded` check.
- The status line's text formatting, the enable-GPS alert dialog, permissions, the camera, the compass listener, the one-second polling `Handler`, the debug database export and logging are UI or Android plumbing, and are left out. `onStatusChanged`, `onProviderEnabled` and `onProviderDisabled` only call `updateGpsStatus`, which `UpdateGpsStatus` models.
- `MIN_TIME_INTERVAL_BETWEEN_LOCATION_UPDATES` and the compass thresholds configure Android services that are not modelled.
