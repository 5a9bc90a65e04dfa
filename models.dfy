/**
 * The request and response records of the Meals service and the field
 * merge that an update applies to a stored row.
 */
module Models {
  import opened Wrappers

  /** The four stored columns of a Meals row; also the body of a create request. */
  datatype Meal = Meal(name: string, categoria: string, area: string, imageUrl: string)

  /** The body of an update request: every field may be left out. */
  datatype MealUpdate = MealUpdate(
    name: Option<string>, categoria: Option<string>, area: Option<string>, imageUrl: Option<string>)

  /** The JSON object returned for one meal: the id and the four columns. */
  datatype MealRecord = MealRecord(id: int, name: string, categoria: string, area: string, imageUrl: string)

  /** An update that supplies no field at all. */
  const NoChange := MealUpdate(None, None, None, None)

  /** The record for the row stored under `id`. */
  function ToRecord(id: int, m: Meal): MealRecord {
    MealRecord(id, m.name, m.categoria, m.area, m.imageUrl)
  }

  /** The four columns of a record, without its id. */
  function Columns(r: MealRecord): Meal {
    Meal(r.name, r.categoria, r.area, r.imageUrl)
  }

  /**
   * Python truthiness of an optional string: `None` and `""` are both false,
   * so neither of them replaces a stored value.
   */
  predicate Truthy(v: Option<string>) {
    v.Some? && v.value != ""
  }

  /** One column of an update: the supplied value when it is truthy, else the stored one. */
  function Pick(supplied: Option<string>, existing: string): string {
    if Truthy(supplied) then supplied.value else existing
  }

  /** The row an update writes back: each supplied truthy field over the stored row. */
  function Merge(existing: Meal, u: MealUpdate): Meal {
    Meal(Pick(u.name, existing.name), Pick(u.categoria, existing.categoria),
         Pick(u.area, existing.area), Pick(u.imageUrl, existing.imageUrl))
  }

  /** Two updates applied one after the other, as one update (the later truthy field wins). */
  function Overlay(first: MealUpdate, second: MealUpdate): MealUpdate {
    MealUpdate(
      if Truthy(second.name) then second.name else first.name,
      if Truthy(second.categoria) then second.categoria else first.categoria,
      if Truthy(second.area) then second.area else first.area,
      if Truthy(second.imageUrl) then second.imageUrl else first.imageUrl)
  }

  /**
   * For every update and every column on its own: leaving the field out and
   * sending it as `""` give the same merged row, and that column keeps its
   * stored value.
   */
  lemma MergeAbsentLikeEmpty(existing: Meal, u: MealUpdate)
    ensures Merge(existing, u.(name := None)) == Merge(existing, u.(name := Some("")))
    ensures Merge(existing, u.(name := None)).name == existing.name
    ensures Merge(existing, u.(categoria := None)) == Merge(existing, u.(categoria := Some("")))
    ensures Merge(existing, u.(categoria := None)).categoria == existing.categoria
    ensures Merge(existing, u.(area := None)) == Merge(existing, u.(area := Some("")))
    ensures Merge(existing, u.(area := None)).area == existing.area
    ensures Merge(existing, u.(imageUrl := None)) == Merge(existing, u.(imageUrl := Some("")))
    ensures Merge(existing, u.(imageUrl := None)).imageUrl == existing.imageUrl
  {
  }

  /** An absent field and an empty string are the same to the merge: both keep the stored value. */
  lemma MergeAbsentEqualsEmpty(existing: Meal)
    ensures Merge(existing, NoChange) == existing
    ensures Merge(existing, MealUpdate(Some(""), Some(""), Some(""), Some(""))) == existing
  {
  }

  /** An update carrying only `categoria` leaves `name`, `area` and `image_url` as stored. */
  lemma MergeOnlyCategoria(existing: Meal, c: string)
    ensures Merge(existing, MealUpdate(None, Some(c), None, None)) ==
            existing.(categoria := if c != "" then c else existing.categoria)
  {
  }

  /** An update supplying all four fields non-empty replaces the whole row, whatever was stored. */
  lemma MergeFullReplaces(existing: Meal, m: Meal)
    requires m.name != "" && m.categoria != "" && m.area != "" && m.imageUrl != ""
    ensures Merge(existing, MealUpdate(Some(m.name), Some(m.categoria), Some(m.area), Some(m.imageUrl))) == m
  {
  }

  /** Sending the same update twice has the effect of sending it once. */
  lemma MergeIdempotent(existing: Meal, u: MealUpdate)
    ensures Merge(Merge(existing, u), u) == Merge(existing, u)
  {
  }

  /** Two consecutive updates equal one update with the later truthy fields over the earlier ones. */
  lemma MergeOverlay(existing: Meal, first: MealUpdate, second: MealUpdate)
    ensures Merge(Merge(existing, first), second) == Merge(existing, Overlay(first, second))
  {
  }

  /** The update path cannot blank a column: a column is empty afterwards only if it was empty before. */
  lemma MergeNeverBlanks(existing: Meal, u: MealUpdate)
    ensures Merge(existing, u).name == "" ==> existing.name == ""
    ensures Merge(existing, u).categoria == "" ==> existing.categoria == ""
    ensures Merge(existing, u).area == "" ==> existing.area == ""
    ensures Merge(existing, u).imageUrl == "" ==> existing.imageUrl == ""
  {
  }
}
