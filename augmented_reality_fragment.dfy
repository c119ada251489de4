/**
 * The location-fix handling of the augmented-reality screen: which fixes it accepts, when it
 * reloads points from the database, when it rebuilds the user's point and re-sorts the
 * displayed points, and when the GPS status clears the display.
 *
 * Distances, the meters-to-degrees conversion and the sort by relative azimuth are
 * floating-point code outside this model; they enter as the functions of a `Services` value.
 * The clock enters as explicit readings in milliseconds.
 */
module Fragments {
  import opened Objects
  import Database
  import JavaMath

  /** Minimum move, in meters, before azimuths and distances are recalculated. */
  const MinMetersBetweenRecalculations: int := 10
  /** Minimum move, in meters, before points are reloaded from the database. */
  const MinMetersBetweenDatabaseReloads: int := 500
  /** Half-size, in meters, of the square searched around the user. */
  const SearchRadiusMeters: int := 10000
  /** A fix older than this, in milliseconds, is no longer valid. */
  const MaxLocationAgeMillis: int := 3 * 60000

  /** What the points overlay currently draws. */
  datatype PointsView =
    | NoPoints                                         // nothing set, or set to (null, null)
    | Showing(userLocation: Location, points: seq<Point>)

  /** Which message the GPS status line shows. */
  datatype GpsStatus = NotShown | Disabled | Located(secondsAgo: int) | WaitingForLocation

  /** The computations this screen calls but that are not part of this model. */
  datatype Services = Services(
    locationDistance: (Location, Location) -> real,     // Location.distanceTo, in meters
    pointDistance: (Location, Location) -> real,        // Point.distanceTo from the user's current point
    metersToDegrees: int -> real,                       // PointService.metersToDegrees
    sortByRelativeAzimuth: (Location, seq<Point>) -> seq<Point>) // PointService.sortPointsByRelativeAzimuth

  /** A fix is still valid at time `now` when it is at most MaxLocationAgeMillis old. */
  predicate IsFresh(fix: Location, now: int) {
    fix.time >= now - MaxLocationAgeMillis
  }

  predicate HasFreshFix(last: Option<Location>, now: int) {
    last.Some? && IsFresh(last.value, now)
  }

  /** Points are (re)loaded on the first fix or after moving more than 500 m from the last load. */
  predicate NeedsReload(points: Option<seq<Point>>, lastReading: Option<Location>, fix: Location,
                        services: Services) {
    || points.None?
    || lastReading.None?
    || services.locationDistance(lastReading.value, fix) > MinMetersBetweenDatabaseReloads as real
  }

  /** The user's point is rebuilt on the first fix or after moving more than 10 m from it. */
  predicate NeedsRecalculation(userPoint: Option<Location>, fix: Location, services: Services) {
    || userPoint.None?
    || services.pointDistance(userPoint.value, fix) > MinMetersBetweenRecalculations as real
  }

  /** The rows the screen loads around a fix: always the 10 km search square. */
  function PointsAround(db: Database.Table, fix: Location, services: Services): seq<Point> {
    Database.Select(db.rows,
      Database.InBox(Database.BoxAround(fix, services.metersToDegrees(SearchRadiusMeters))))
  }

  /**
   * Away from the poles and the antimeridian, the points loaded around a fix are exactly the
   * stored rows within metersToDegrees(10000) degrees of it on both axes, edges included.
   */
  lemma LoadedPointsLieInSearchSquare(db: Database.Table, fix: Location, services: Services)
    requires var h := services.metersToDegrees(SearchRadiusMeters);
             && -90.0 < fix.latitude - h < 90.0 && -90.0 < fix.latitude + h < 90.0
             && -180.0 < fix.longitude - h < 180.0 && -180.0 < fix.longitude + h < 180.0
    ensures var h := services.metersToDegrees(SearchRadiusMeters);
            forall p :: p in PointsAround(db, fix, services) <==>
              && p in db.rows
              && fix.latitude - h <= p.latitude <= fix.latitude + h
              && fix.longitude - h <= p.longitude <= fix.longitude + h
  {
    Database.QueryAroundIsSquare(db.rows, fix, services.metersToDegrees(SearchRadiusMeters));
  }

  class AugmentedRealityFragment {
    var lastGpsLocation: Option<Location>
    var points: Option<seq<Point>>
    var userLocationAtLastDbReading: Option<Location>
    /** The user's point, identified with the fix it was built from. */
    var userLocationPoint: Option<Location>
    var pointsView: PointsView
    var gpsStatus: GpsStatus
    /** The application's database helper. */
    const db: Database.ARDbHelper

    /**
     * Points and the location they were loaded at are set together; the user's point exists
     * only once points are loaded; the overlay draws points only while a fix is held.
     */
    ghost predicate Valid()
      reads this
    {
      && (points.Some? <==> userLocationAtLastDbReading.Some?)
      && (userLocationPoint.Some? ==> points.Some?)
      && (pointsView.Showing? ==> lastGpsLocation.Some?)
    }

    constructor (db: Database.ARDbHelper)
      ensures Valid() && this.db == db
      ensures lastGpsLocation.None? && points.None? && userLocationAtLastDbReading.None?
      ensures userLocationPoint.None? && pointsView == NoPoints && gpsStatus == NotShown
    {
      this.db := db;
      lastGpsLocation, points, userLocationAtLastDbReading, userLocationPoint := None, None, None, None;
      pointsView, gpsStatus := NoPoints, NotShown;
    }

    /**
     * Brings the status line and the overlay in line with the GPS provider: a disabled provider
     * forgets the last fix and clears the overlay; an enabled one without a valid fix clears
     * the overlay. Nothing happens while the screen is not attached.
     */
    method UpdateGpsStatus(isAdded: bool, gpsEnabled: bool, now: int)
      requires Valid()
      modifies this
      ensures Valid()
      ensures points == old(points) && userLocationAtLastDbReading == old(userLocationAtLastDbReading)
      ensures userLocationPoint == old(userLocationPoint)
      ensures !isAdded ==> lastGpsLocation == old(lastGpsLocation) && pointsView == old(pointsView)
                           && gpsStatus == old(gpsStatus)
      ensures isAdded && !gpsEnabled ==>
                lastGpsLocation.None? && pointsView == NoPoints && gpsStatus == Disabled
      ensures isAdded && gpsEnabled ==> lastGpsLocation == old(lastGpsLocation)
      ensures isAdded && gpsEnabled && HasFreshFix(old(lastGpsLocation), now) ==>
                pointsView == old(pointsView)
                && gpsStatus == Located(JavaMath.Div(now - old(lastGpsLocation).value.time, 1000))
      ensures isAdded && gpsEnabled && !HasFreshFix(old(lastGpsLocation), now) ==>
                pointsView == NoPoints && gpsStatus == WaitingForLocation
    {
      if isAdded {
        if !gpsEnabled {
          lastGpsLocation := None;
          gpsStatus := Disabled;
          pointsView := NoPoints;
        } else if lastGpsLocation.Some? && lastGpsLocation.value.time >= now - MaxLocationAgeMillis {
          gpsStatus := Located(JavaMath.Div(now - lastGpsLocation.value.time, 1000));
        } else {
          gpsStatus := WaitingForLocation;
          pointsView := NoPoints;
        }
      }
    }

    /**
     * Handles a new fix. The clock is read at `now` for the validity check and at `statusNow`
     * by the status update that ends the handler. The location listener is registered only
     * while the screen is resumed, so the screen is attached here.
     */
    method OnLocationChanged(fix: Location, now: int, statusNow: int, gpsEnabled: bool,
                             services: Services)
      requires Valid()
      modifies this
      ensures Valid()
      // A fix older than the maximum age changes none of the four fields (the provider's
      // state may still clear the last fix).
      ensures !IsFresh(fix, now) ==>
                && points == old(points)
                && userLocationAtLastDbReading == old(userLocationAtLastDbReading)
                && userLocationPoint == old(userLocationPoint)
                && (gpsEnabled ==> lastGpsLocation == old(lastGpsLocation))
      ensures IsFresh(fix, now) && gpsEnabled ==> lastGpsLocation == Some(fix)
      ensures IsFresh(fix, now) ==> points.Some?
      // Reload: only on the first fix or after moving more than 500 m, always 10 km around the fix.
      ensures IsFresh(fix, now) && NeedsReload(old(points), old(userLocationAtLastDbReading), fix, services) ==>
                && userLocationAtLastDbReading == Some(fix)
                && points == Some(PointsAround(db.Model(), fix, services))
      ensures !(IsFresh(fix, now) && NeedsReload(old(points), old(userLocationAtLastDbReading), fix, services)) ==>
                points == old(points) && userLocationAtLastDbReading == old(userLocationAtLastDbReading)
      // Recalculation: only on the first fix or after moving more than 10 m from the user's point.
      ensures IsFresh(fix, now) && NeedsRecalculation(old(userLocationPoint), fix, services) ==>
                && userLocationPoint == Some(fix)
                && (gpsEnabled && IsFresh(fix, statusNow) ==>
                      pointsView == Showing(fix, services.sortByRelativeAzimuth(fix, points.value)))
      ensures !(IsFresh(fix, now) && NeedsRecalculation(old(userLocationPoint), fix, services)) ==>
                && userLocationPoint == old(userLocationPoint)
                && (gpsEnabled && HasFreshFix(lastGpsLocation, statusNow) ==> pointsView == old(pointsView))
      // The closing status update.
      ensures !gpsEnabled ==> lastGpsLocation.None? && pointsView == NoPoints && gpsStatus == Disabled
      ensures gpsEnabled && !HasFreshFix(lastGpsLocation, statusNow) ==>
                pointsView == NoPoints && gpsStatus == WaitingForLocation
      ensures gpsEnabled && HasFreshFix(lastGpsLocation, statusNow) ==>
                gpsStatus == Located(JavaMath.Div(statusNow - lastGpsLocation.value.time, 1000))
    {
      if fix.time >= now - MaxLocationAgeMillis {
        lastGpsLocation := Some(fix);
        if NeedsReload(points, userLocationAtLastDbReading, fix, services) {
          userLocationAtLastDbReading := Some(fix);
          var found := db.GetPointsAround(fix, SearchRadiusMeters, services.metersToDegrees);
          points := Some(found);
        }
        if NeedsRecalculation(userLocationPoint, fix, services) {
          userLocationPoint := Some(fix);
          pointsView := Showing(fix, services.sortByRelativeAzimuth(fix, points.value));
        }
      }
      UpdateGpsStatus(true, gpsEnabled, statusNow);
    }
  }
}
