/**
 * The two tables and their rows. A car owns its parts through the parts'
 * `car_id` foreign key; the database refuses a part whose car does not exist
 * and removes a car's parts when the car is removed (onDelete cascade).
 */
module Models {
  import opened Wrappers

  /** A row of `cars`: the fillable columns name, registration_number, is_registered. */
  datatype Car = Car(name: string, registrationNumber: Option<string>, isRegistered: bool)

  /**
   * A row of `parts`: the fillable columns name, serialnumber and car_id, the
   * creation time (a list can be ordered by it) and the soft-delete marker the
   * part controller reads and writes.
   */
  datatype Part = Part(name: string, serialnumber: string, carId: nat, createdAt: nat, deleted: bool)

  /** The foreign key `parts.car_id -> cars.id` holds. */
  predicate ForeignKeys(cars: map<nat, Car>, parts: map<nat, Part>)
  {
    forall id :: id in parts ==> parts[id].carId in cars
  }

  /** The parts whose `car_id` is `carId`. */
  function PartsOf(parts: map<nat, Part>, carId: nat): (r: map<nat, Part>)
    ensures forall id :: id in r <==> id in parts && parts[id].carId == carId
    ensures forall id :: id in r ==> r[id] == parts[id]
  {
    map id | id in parts && parts[id].carId == carId :: parts[id]
  }

  /**
   * The parts a car's `parts` relation loads: those whose `car_id` is
   * `carId`, without the ones flagged deleted, which the soft-delete scope
   * leaves out.
   */
  function LoadedParts(parts: map<nat, Part>, carId: nat): (r: map<nat, Part>)
    ensures forall id :: id in r <==> id in parts && parts[id].carId == carId && !parts[id].deleted
    ensures forall id :: id in r ==> r[id] == parts[id]
  {
    map id | id in parts && parts[id].carId == carId && !parts[id].deleted :: parts[id]
  }

  /** The database both controllers act on; ids come from auto-increment counters. */
  class Database {
    var cars: map<nat, Car>
    var parts: map<nat, Part>
    var nextCarId: nat
    var nextPartId: nat

    ghost predicate Valid()
      reads this
    {
      && ForeignKeys(cars, parts)
      && (forall id :: id in cars ==> id < nextCarId)
      && (forall id :: id in parts ==> id < nextPartId)
    }

    constructor ()
      ensures Valid()
      ensures cars == map[] && parts == map[]
    {
      cars, parts := map[], map[];
      nextCarId, nextPartId := 1, 1;
    }
  }
}
