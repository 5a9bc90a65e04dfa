# Meals service: a verified model of its table and endpoints

The Meals service keeps one relational table, `Meals`, whose rows hold an
identity-generated `id` and four text columns (`name`, `categoria`, `area`,
`image_url`). Its HTTP endpoints list that table, read one row, insert a row
typed in by hand or fetched from an outside random-meal source, update a row
by merging the supplied fields over it, delete one row, and delete every row.

This project models the table as a map from id to the four columns
(`Models.Meal`) and writes each endpoint as a method of the class
`MealsApi.MealStore`. The class holds that map and the identity column's next
value. The pure parts are functions with lemmas about them:

- `Models`: the request and response records and the field merge of an update.
- `MealListing`: the listing order, newest id first, and the mapping from row to record.
- `Decimal`: how Python prints an integer into the confirmation messages.

The files:

- `wrappers.dfy`: `Option` and `Result`.
- `models.dfy`: `Meal` (a create body and a stored row), `MealUpdate` (an update body, every field optional) and `MealRecord` (the JSON object of one meal). Also the merge and its lemmas.
- `listing.dfy`: the listing and its lemmas.
- `decimal.dfy`: integer-to-text and text-to-integer, with the round trip.
- `meals_api.dfy`: the store class, the error kinds with their HTTP status, the response records, and client methods that chain endpoints.

Points where the model commits to a reading of the code:

- Truthiness. An update keeps the stored value when the supplied field is `None` or `""`, because Python treats both as false. The model's `Truthy` says exactly that.
- Empty strings on create. `MealCreate`'s four `str` fields are required but carry no length constraint, so the model accepts empty strings on create. Once a column is stored empty, an update can fill it in but can never empty a column again (`MergeNeverBlanks`).
- The identity column. The table schema is not part of this model. The model assumes an identity column that starts at 1, grows by one per insert, and is never reset by `DELETE`. So every new id is above every id ever stored, and a new row heads the listing.
- Read-only endpoints. The listing and the single-row read have no `modifies` clause, so Dafny checks that they leave the table and the counter untouched.

## Model

| member | source | states |
|---|---|---|
| `Models.MergeAbsentLikeEmpty` | Tarea/API/app.py:880-883 | for every update and each field on its own, leaving the field out and sending it as `""` give the same merged row, and that column keeps its stored value |
| `Models.MergeAbsentEqualsEmpty` | Tarea/API/app.py:880-883 | an update with every field absent and one with every field `""` both leave the row as stored |
| `Models.MergeOnlyCategoria` | Tarea/API/app.py:880-883 | an update with only `categoria` leaves `name`, `area` and `image_url` unchanged, and sets `categoria` when it is non-empty |
| `Models.MergeFullReplaces` | Tarea/API/app.py:880-883 | an update supplying all four fields non-empty replaces the row with them, whatever was stored |
| `Models.MergeIdempotent` | Tarea/API/app.py:880-883 | applying the same update twice gives the same row as applying it once |
| `Models.MergeOverlay` | Tarea/API/app.py:880-883 | two updates in a row equal one update whose fields are the later truthy ones over the earlier |
| `Models.MergeNeverBlanks` | Tarea/API/app.py:880-883 | after an update a column is empty only if it was already empty |
| `MealListing.IdsDescending` | Tarea/API/app.py:758 | the ordered ids hold each id of the table exactly once, in strictly decreasing order |
| `MealListing.Records` | Tarea/API/app.py:761-769 | one record per fetched row, in the rows' order, carrying that row's id and columns |
| `MealListing.ListingLength` | Tarea/API/app.py:758-771 | the listing has as many records as the table has rows |
| `MealListing.ListingRowsStored` | Tarea/API/app.py:758-769 | every listed record is a row of the table with the columns stored under its id |
| `MealListing.ListingCoversTable` | Tarea/API/app.py:758-769 | an id appears in the listing if and only if the table has a row with that id |
| `MealListing.ListingDescending` | Tarea/API/app.py:758 | listed ids strictly decrease, so the newest comes first and none repeats |
| `MealListing.NewestListedFirst` | Tarea/API/app.py:758 | a row stored under an id above all existing ids is listed first, followed by the earlier listing unchanged |
| `Decimal.NatToDecimal` | Tarea/API/app.py:941 | the printed count is a non-empty string of digits with no leading zero |
| `Decimal.NatDecimalRoundTrip` | Tarea/API/app.py:941 | reading the printed count back gives the count |
| `Decimal.IntDecimalRoundTrip` | Tarea/API/app.py:921 | reading the printed id back gives the id, sign included |
| `MealsApi.MealStore.GetAllMeals` | Tarea/API/app.py:752-774 | the body lists every row exactly once with its stored columns, ids descending; `total` is the list's length and the row count; the table is not modified |
| `MealsApi.MealStore.GetMeal` | Tarea/API/app.py:776-802 | succeeds exactly when the id is stored, answering that id with the stored columns; otherwise NotFound with status 404 and the fixed detail text; the table is not modified |
| `MealsApi.MealStore.Insert` | Tarea/API/app.py:846-851 | the row goes in under the next identity value, an id not in use and above every stored id, and nothing else in the table changes |
| `MealsApi.MealStore.CreateMeal` | Tarea/API/app.py:840-865 | stores the four supplied fields under a fresh positive id, leaves other rows alone, and echoes that id with the same four fields |
| `MealsApi.MealStore.GetRandomMeal` | Tarea/API/app.py:804-838 | with the four upstream fields in hand it stores and echoes them as a create does; when the upstream call fails it answers an upstream failure with status 500 and writes nothing |
| `MealsApi.MealStore.UpdateMeal` | Tarea/API/app.py:867-905 | on a stored id it writes the merged row under that id, changes no other row, and returns that row with the same id; on a missing id NotFound with status 404, the fixed detail text and no change |
| `MealsApi.MealStore.DeleteMeal` | Tarea/API/app.py:907-926 | on a stored id it removes exactly that row and answers a message naming the id; on a missing id NotFound with status 404, the fixed detail text and no change |
| `MealsApi.MealStore.DeleteAllMeals` | Tarea/API/app.py:928-943 | the reported count is the number of rows before the call, and the table is empty afterwards |
| `MealsApi.CreateThenGet` | Tarea/API/app.py:846-861 | a get of the id a create returned answers the created record, and the table afterwards is the old one plus that row |
| `MealsApi.CreateThenList` | Tarea/API/app.py:758-771 | after a create the listing is the new record followed by the earlier listing, and the total grows by one; the table afterwards is the old one plus the new row |
| `MealsApi.DeleteTwice` | Tarea/API/app.py:914-921 | the first delete succeeds exactly when the id was stored, the second answers NotFound, and only that row is gone |
| `MealsApi.UpdateOnlyCategoria` | Tarea/API/app.py:880-900 | an update of only `categoria` returns and stores the old `name`, `area` and `image_url` unchanged; the table afterwards is the old one with that row replaced by the returned columns |
| `MealsApi.DeleteAllThenList` | Tarea/API/app.py:934-943 | after a bulk delete the table is empty and the listing is empty with total 0 |

## Left out

- The HTML dashboard served at `/` (Tarea/API/app.py:40-748): browser markup and scripts, not service logic.
- The connection string and opening a connection per request: driver I/O, replaced by the map field.
- The outbound request to the random-meal source and reading four fields out of its JSON: network I/O. `GetRandomMeal` takes the four strings, or `None` when that step raised or returned a failure status.
- The detail text of an upstream failure, which is the exception's own message (`Detail` gives `None` for it). The 404 detail is modelled as `NotFoundDetail`.
- The generic 500 answer for any driver failure, with the driver's message as detail: it depends on failures of code outside this model. The model's handlers never fail on the database side.
- Request parsing and validation by the web framework. An update body is taken as four optional strings, and a path id as an integer.
- Concurrent requests and the database's isolation: the model is sequential, one handler call at a time.
- The table schema. The identity column is assumed to start at 1 and step by 1, as described above.
