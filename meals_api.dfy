/**
 * The Meals endpoints of the service, over the Meals table held as a map
 * from id to the four stored columns. Each handler opens one connection and
 * runs its statements in order; here the table is a field of `MealStore`
 * and each handler is a method that reads or reassigns it.
 */
module MealsApi {
  import opened Wrappers
  import opened Models
  import opened MealListing
  import Decimal

  /** The errors a Meals handler raises. */
  datatype Failure =
    | NotFound          // no row with the requested id
    | UpstreamFailure   // the random-meal source raised or answered with a failure status

  /** The HTTP status each error is reported with. */
  function StatusCode(f: Failure): int {
    match f
    case NotFound => 404
    case UpstreamFailure => 500
  }

  /** The detail text a NotFound is raised with. */
  const NotFoundDetail := "Comida no encontrada"

  /**
   * The detail of each error: the fixed text of a NotFound; for an upstream
   * failure the exception's own text, which is not modelled.
   */
  function Detail(f: Failure): Option<string> {
    match f
    case NotFound => Some(NotFoundDetail)
    case UpstreamFailure => None
  }

  /** `{total, meals}` of the listing. */
  datatype MealList = MealList(total: int, meals: seq<MealRecord>)

  /** `{mensaje, meal}` of a create, a random fetch or an update. */
  datatype Saved = Saved(mensaje: string, meal: MealRecord)

  /** `{mensaje}` of a single delete. */
  datatype Deleted = Deleted(mensaje: string)

  /** `{mensaje, total_eliminados}` of a bulk delete. */
  datatype Purged = Purged(mensaje: string, totalEliminados: int)

  const CreatedMessage := "Comida creada exitosamente"
  const SavedRandomMessage := "Comida guardada exitosamente"
  const UpdatedMessage := "Comida actualizada exitosamente"

  /** The message of a single delete, with the id as Python prints it. */
  function DeletedMessage(mealId: int): string {
    "Comida con ID " + Decimal.IntToDecimal(mealId) + " eliminada exitosamente"
  }

  /** The message of a bulk delete, with the count as Python prints it. */
  function PurgedMessage(count: nat): string {
    "Se eliminaron " + Decimal.NatToDecimal(count) + " comidas exitosamente"
  }

  /**
   * The Meals table and its identity column. `nextId` is the value the
   * identity column gives the next inserted row; it only grows, and a
   * `DELETE` does not reset it.
   */
  class MealStore {
    var table: map<int, Meal>
    var nextId: int

    /** Ids are positive and below the next identity value. */
    ghost predicate Valid()
      reads this
    {
      1 <= nextId && forall id :: id in table ==> 1 <= id < nextId
    }

    /** An empty table whose identity column starts at 1. */
    constructor ()
      ensures Valid() && table == map[] && nextId == 1
    {
      table := map[];
      nextId := 1;
    }

    /** `GET /meals`: every row exactly once, newest id first, with the count. */
    method GetAllMeals() returns (r: MealList)
      ensures r.meals == Listing(table)
      ensures r.total == |r.meals| == |table|
      ensures forall i :: 0 <= i < |r.meals| ==>
        r.meals[i].id in table && Columns(r.meals[i]) == table[r.meals[i].id]
      ensures forall id :: id in table <==> exists i :: 0 <= i < |r.meals| && r.meals[i].id == id
      ensures forall i, j :: 0 <= i < j < |r.meals| ==> r.meals[i].id > r.meals[j].id
    {
      var meals := Listing(table);
      ListingLength(table);
      ListingRowsStored(table);
      ListingCoversTable(table);
      ListingDescending(table);
      r := MealList(|meals|, meals);
    }

    /** `GET /meals/{id}`: the stored row, or NotFound when no row has that id. */
    method GetMeal(mealId: int) returns (r: Result<MealRecord, Failure>)
      ensures r.Ok? <==> mealId in table
      ensures r.Ok? ==> r.value.id == mealId && Columns(r.value) == table[mealId]
      ensures r.Err? ==> r.error == NotFound && StatusCode(r.error) == 404
      ensures r.Err? ==> Detail(r.error) == Some(NotFoundDetail)
    {
      if mealId !in table {
        return Err(NotFound);
      }
      r := Ok(ToRecord(mealId, table[mealId]));
    }

    /**
     * The insert that returns the generated key in the same statement: stores
     * the row under the next identity value and returns that id.
     */
    method Insert(m: Meal) returns (id: int)
      requires Valid()
      modifies this
      ensures Valid()
      ensures id == old(nextId) && nextId == old(nextId) + 1
      ensures 1 <= id && id !in old(table) && forall k :: k in old(table) ==> k < id
      ensures table == old(table)[id := m]
    {
      id := nextId;
      table := table[id := m];
      nextId := nextId + 1;
    }

    /** `POST /meals`: stores the four fields under a fresh id and echoes them with it. */
    method CreateMeal(meal: Meal) returns (r: Saved)
      requires Valid()
      modifies this
      ensures Valid()
      ensures r.mensaje == CreatedMessage
      ensures r.meal.id == old(nextId) && nextId == old(nextId) + 1
      ensures 1 <= r.meal.id && r.meal.id !in old(table) && forall k :: k in old(table) ==> k < r.meal.id
      ensures Columns(r.meal) == meal
      ensures table == old(table)[r.meal.id := meal]
    {
      var id := Insert(meal);
      r := Saved(CreatedMessage, ToRecord(id, meal));
    }

    /**
     * `GET /meals/random/api`, from the point where the upstream answer is in
     * hand: `fetched` is the four fields taken from it, or None when the
     * request raised or its status was a failure. The fields are stored as a
     * create stores them.
     */
    method GetRandomMeal(fetched: Option<Meal>) returns (r: Result<Saved, Failure>)
      requires Valid()
      modifies this
      ensures Valid()
      ensures fetched.None? ==> r == Err(UpstreamFailure) && table == old(table) && nextId == old(nextId)
      ensures fetched.None? ==> r.Err? && StatusCode(r.error) == 500
      ensures fetched.Some? ==>
        && r.Ok? && r.value.mensaje == SavedRandomMessage
        && r.value.meal.id == old(nextId) && nextId == old(nextId) + 1
        && 1 <= r.value.meal.id && r.value.meal.id !in old(table)
        && (forall k :: k in old(table) ==> k < r.value.meal.id)
        && Columns(r.value.meal) == fetched.value
        && table == old(table)[r.value.meal.id := fetched.value]
    {
      if fetched.None? {
        return Err(UpstreamFailure);
      }
      var id := Insert(fetched.value);
      r := Ok(Saved(SavedRandomMessage, ToRecord(id, fetched.value)));
    }

    /**
     * `PUT /meals/{id}`: reads the stored row, merges the truthy supplied
     * fields over it, writes the whole row back and returns it; NotFound,
     * with nothing written, when no row has that id.
     */
    method UpdateMeal(mealId: int, meal: MealUpdate) returns (r: Result<Saved, Failure>)
      requires Valid()
      modifies this
      ensures Valid() && nextId == old(nextId)
      ensures r.Ok? <==> mealId in old(table)
      ensures mealId !in old(table) ==> r == Err(NotFound) && table == old(table)
      ensures r.Err? ==> StatusCode(r.error) == 404
      ensures r.Err? ==> Detail(r.error) == Some(NotFoundDetail)
      ensures mealId in old(table) ==>
        && table == old(table)[mealId := Merge(old(table)[mealId], meal)]
        && r.Ok? && r.value.mensaje == UpdatedMessage
        && r.value.meal.id == mealId && Columns(r.value.meal) == table[mealId]
    {
      if mealId !in table {
        return Err(NotFound);
      }
      var existing := table[mealId];
      var merged := Merge(existing, meal);
      table := table[mealId := merged];
      r := Ok(Saved(UpdatedMessage, ToRecord(mealId, merged)));
    }

    /** `DELETE /meals/{id}`: removes that one row; NotFound, with nothing removed, when it is absent. */
    method DeleteMeal(mealId: int) returns (r: Result<Deleted, Failure>)
      requires Valid()
      modifies this
      ensures Valid() && nextId == old(nextId)
      ensures r.Ok? <==> mealId in old(table)
      ensures mealId !in old(table) ==> r == Err(NotFound) && table == old(table)
      ensures r.Err? ==> StatusCode(r.error) == 404
      ensures r.Err? ==> Detail(r.error) == Some(NotFoundDetail)
      ensures mealId in old(table) ==>
        r == Ok(Deleted(DeletedMessage(mealId))) && table == old(table) - {mealId}
    {
      if mealId !in table {
        return Err(NotFound);
      }
      table := table - {mealId};
      r := Ok(Deleted(DeletedMessage(mealId)));
    }

    /** `DELETE /meals`: counts the rows, then removes them all, and reports the count. */
    method DeleteAllMeals() returns (r: Purged)
      requires Valid()
      modifies this
      ensures Valid() && nextId == old(nextId)
      ensures r.totalEliminados == |old(table)|
      ensures r.mensaje == PurgedMessage(|old(table)|)
      ensures table == map[]
    {
      var count := |table|;
      table := map[];
      r := Purged(PurgedMessage(count), count);
    }
  }

  /** A create followed by a get of the returned id answers the created record. */
  method CreateThenGet(s: MealStore, meal: Meal) returns (created: Saved, got: Result<MealRecord, Failure>)
    requires s.Valid()
    modifies s
    ensures s.Valid()
    ensures got == Ok(created.meal)
    ensures Columns(created.meal) == meal
    ensures created.meal.id !in old(s.table)
    ensures s.table == old(s.table)[created.meal.id := meal]
    ensures created.meal.id == old(s.nextId) && s.nextId == old(s.nextId) + 1
    ensures forall k :: k in old(s.table) ==> k < created.meal.id
  {
    created := s.CreateMeal(meal);
    got := s.GetMeal(created.meal.id);
  }

  /** A created meal heads the listing that follows, ahead of the earlier rows. */
  method CreateThenList(s: MealStore, meal: Meal) returns (created: Saved, listed: MealList)
    requires s.Valid()
    modifies s
    ensures s.Valid()
    ensures listed.meals == [created.meal] + Listing(old(s.table))
    ensures listed.total == |old(s.table)| + 1
    ensures created.meal.id !in old(s.table) && Columns(created.meal) == meal
    ensures s.table == old(s.table)[created.meal.id := meal]
    ensures created.meal.id == old(s.nextId) && s.nextId == old(s.nextId) + 1
  {
    ghost var before := s.table;
    created := s.CreateMeal(meal);
    NewestListedFirst(before, created.meal.id, meal);
    listed := s.GetAllMeals();
    ListingLength(before);
  }

  /** Deleting an id twice: the second delete always answers NotFound. */
  method DeleteTwice(s: MealStore, mealId: int) returns (first: Result<Deleted, Failure>, second: Result<Deleted, Failure>)
    requires s.Valid()
    modifies s
    ensures s.Valid()
    ensures first.Ok? <==> mealId in old(s.table)
    ensures second == Err(NotFound)
    ensures s.table == old(s.table) - {mealId}
    ensures s.nextId == old(s.nextId)
  {
    first := s.DeleteMeal(mealId);
    second := s.DeleteMeal(mealId);
  }

  /** An update carrying only `categoria` leaves the other three columns as stored. */
  method UpdateOnlyCategoria(s: MealStore, mealId: int, categoria: string) returns (r: Result<Saved, Failure>)
    requires s.Valid()
    modifies s
    ensures s.Valid()
    ensures mealId in old(s.table) ==>
      && r.Ok?
      && r.value.meal.name == old(s.table)[mealId].name
      && r.value.meal.area == old(s.table)[mealId].area
      && r.value.meal.imageUrl == old(s.table)[mealId].imageUrl
      && r.value.meal.categoria == (if categoria != "" then categoria else old(s.table)[mealId].categoria)
      && s.table == old(s.table)[mealId := Columns(r.value.meal)]
      && s.table[mealId].name == old(s.table)[mealId].name
      && s.table[mealId].area == old(s.table)[mealId].area
      && s.table[mealId].imageUrl == old(s.table)[mealId].imageUrl
    ensures mealId !in old(s.table) ==> r == Err(NotFound) && s.table == old(s.table)
    ensures s.nextId == old(s.nextId)
  {
    r := s.UpdateMeal(mealId, MealUpdate(None, Some(categoria), None, None));
    if mealId in old(s.table) {
      MergeOnlyCategoria(old(s.table)[mealId], categoria);
    }
  }

  /** After a bulk delete the listing is empty. */
  method DeleteAllThenList(s: MealStore) returns (purged: Purged, listed: MealList)
    requires s.Valid()
    modifies s
    ensures s.Valid()
    ensures purged.totalEliminados == |old(s.table)|
    ensures listed == MealList(0, [])
    ensures s.table == map[]
    ensures s.nextId == old(s.nextId)
  {
    purged := s.DeleteAllMeals();
    listed := s.GetAllMeals();
  }
}
