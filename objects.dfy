/** Value types shared by the point table and the augmented-reality screen. */
module Objects {

  /** A point of interest as stored in the points table: one row with its row id. */
  datatype Point = Point(
    id: int,
    name: string,
    description: string,
    latitude: real,
    longitude: real,
    altitude: int)

  /** The part of an Android location fix that the screen reads: position and fix time (ms). */
  datatype Location = Location(latitude: real, longitude: real, altitude: real, time: int)

  datatype Option<T> = None | Some(value: T)
}
