# Category administration, modelled in Dafny

This project models the admin screen `admin/categories.php` of a small shop.
Staff use it to create, rename and delete product categories.
A request to the screen is modelled as the pure function `Handler.Handle`. It takes:
- the session (an optional user id and an optional role);
- the request (the HTTP verb, the `action` field from the POST body or the query string, and the `category_name`, `img_name` and `category_id` form fields);
- the category store;
- a function giving the number of products that reference each category id;
- a boolean saying whether the store accepted the final write statement.

It returns the new store and what the page shows: either a redirect with a flash message, or the page with its success and error messages.

The store (`Store.Db`) is a map from `category_id` to a `Category(name, img)`, plus the table's auto-increment counter.
The SQL lookups become predicates over the map:
- `NameHeld`: some category already has this name.
- `NameHeldByOther`: some category other than the given id has this name.

INSERT, UPDATE and DELETE become map operations. The listing query (a left join, a per-category product count, ordered by name) is `Listing.BuildListing`.

Modules:
- `Optional`: absent fields and PHP's `??`.
- `Text`: PHP `trim` and the name order used by the listing.
- `Store`: the table, its invariants (unique names; ids issued by the counter) and the three write statements.
- `Actions`: the `create`, `update` and `delete` branches with their messages.
- `Handler`: the role gate, request parsing, `Handle`, and `Run`, which folds `Handle` over a sequence of requests.
- `Listing`: the category table shown under the forms.
- `Scenarios`: single requests on concrete inputs. `Handler.HandleDispatches` connects the action-level ones to `Handle`.

The central invariant is `Store.Valid`. It says that category names are unique and that every id is positive and below the counter. Every request preserves it (`Handler.HandlePreservesValid`), and so does every sequence of requests (`Handler.RunPreservesValid`).

Two behaviours of the code that a reader might expect to differ are modelled as the code has them:
- An `update` of a positive id that has no row reports "Category updated." and changes nothing.
- A `delete` of such an id reports "Category deleted." and changes nothing. No "Failed to … category." message is given for a write that matched no row.

One behaviour departs from the code: form fields are only trimmed here, and the filtering that runs before the trim is not modelled (see "Left out").

## Model

| member | source | states |
|---|---|---|
| Text.Trim | admin/categories.php:24 | the trimmed field has no blank (space, tab, LF, CR, NUL, vertical tab) at either end, is no longer than the input, and is empty exactly when the input is all blanks, so a blank-only name counts as empty |
| Text.TrimPadded | admin/categories.php:24 | trimming returns exactly the core of blanks + core + blanks, which characterises `trim` completely |
| Text.TrimKeepsTrimmed | admin/categories.php:24 | a field with no blank at either end is stored exactly as sent |
| Text.TrimIdempotent | admin/categories.php:24 | trimming an already trimmed field changes nothing |
| Text.NameLeqTotal | admin/categories.php:99 | any two names are comparable in the listing's name order |
| Text.NameLeqTransitive | admin/categories.php:99 | the listing's name order is transitive |
| Text.NameLeqAntisymmetric | admin/categories.php:99 | two names that are each ordered before the other are equal, so the order is strict on distinct names |
| Store.Insert | admin/categories.php:44-46 | the insert gives the new row the counter's id, which no stored row has; all existing rows are kept; exactly one row is added; ids stay issued by the counter |
| Store.UpdateById | admin/categories.php:68-70 | the update overwrites only the row with that id; the set of ids is unchanged; a missing id matches no row and leaves the store as it was |
| Store.DeleteById | admin/categories.php:87-89 | the delete removes only that id, keeps every other row unchanged, and a missing id leaves the store as it was |
| Store.NameHeld | admin/categories.php:36-41 | the duplicate lookup finds a row exactly when the name is among the names of the stored categories |
| Store.NameHeldByOther | admin/categories.php:60-65 | the lookup excludes the row's own id: it holds exactly when the name is held among the rows other than that id; so it implies the plain lookup, equals it when the id has no row, and a name held but not by another id is held by that id itself |
| Actions.ValidName | admin/categories.php:33 | a name is accepted exactly when it has between 1 and 64 characters |
| Actions.Create | admin/categories.php:29-49 | an empty or over-64-character name is refused with the length message; a name some category holds is refused with the duplicate message; a valid, unheld name whose write fails gets "Failed to create category."; success happens exactly when the name is valid, not held and the write is accepted, and then the row is inserted; every failure leaves the store unchanged |
| Actions.Update | admin/categories.php:50-73 | a non-positive id is refused first, then an invalid name, then a name held by a different id; when all three checks pass but the write fails, "Failed to update category." is set; success happens exactly when the checks pass and the write is accepted, and then only that id's row is overwritten; every failure leaves the store unchanged |
| Actions.Delete | admin/categories.php:74-92 | a non-positive id is refused; an id referenced by any product is refused with the in-use message; when both checks pass but the write fails, "Failed to delete category." is set; success happens exactly when the id is positive, unreferenced and the write is accepted, and then that id is removed; every failure leaves the store unchanged |
| Actions.CreateAddsOneRow | admin/categories.php:36-46 | after a successful create, exactly one row is added, under a previously unused id, with the submitted name and image; old rows are kept; the new name is held by that row alone |
| Actions.CreatePreservesValid | admin/categories.php:36-46 | create keeps names unique and ids issued by the counter |
| Actions.UpdateOnlyTouchesItsRow | admin/categories.php:68-70 | a successful update keeps the set of ids and the counter; only the named row changes, to the new name and image; a missing id leaves the store unchanged |
| Actions.UpdatePreservesValid | admin/categories.php:60-70 | update keeps names unique, because the duplicate check excludes only the row being renamed |
| Actions.RenameToOwnNameAllowed | admin/categories.php:60-66 | updating a category to the name it already has is not a duplicate: it succeeds and only the image changes |
| Actions.UpdateIdempotent | admin/categories.php:50-73 | submitting a successful update a second time succeeds again and leaves the same store |
| Actions.DeleteRemovesOnlyItsRow | admin/categories.php:84-89 | a successful delete happens only for an id no product references, and removes that id and nothing else |
| Actions.DeletePreservesValid | admin/categories.php:74-92 | delete keeps names unique and ids issued by the counter |
| Handler.StaffRole | admin/categories.php:15 | a role passes exactly when it is one of "admin" and "staff" |
| Handler.ActionOf | admin/categories.php:26 | the action is the POST field when present, otherwise the query-string field, otherwise empty |
| Handler.TextField | admin/categories.php:30-31 | a form text field is read as PHP trim of the sent value (empty when missing), so it has no blank at either end |
| Handler.Parse | admin/categories.php:26-31 | a POST with action create, update or delete gives exactly the create, update or delete command; anything else gives no command; the name and image of create and update are the trimmed form fields, and the id is the form id, or 0 when missing |
| Handler.Execute | admin/categories.php:28-94 | a create, update or delete command runs the create, update or delete action on its fields; with no command the store is unchanged and no message is set; with a command exactly one of the two messages is set; an error never changes the store |
| Handler.Handle | admin/categories.php:6-19 | without a user id the visitor is redirected to the login page with the login message; with a role other than admin or staff, to the home page with the permission message; in both cases the store is unchanged; the page is rendered exactly when both checks pass |
| Handler.HandleDispatches | admin/categories.php:26-94 | an authorised POST with action create, update or delete returns exactly the effect of that action on the trimmed name and image fields and the form id (0 when missing) |
| Handler.FailureLeavesStoreUnchanged | admin/categories.php:6-94 | every request that ends in a redirect or an error message leaves the store exactly as it was |
| Handler.NoActionNoChange | admin/categories.php:21-29 | a non-POST request, or a POST with a missing or unknown action, leaves the store unchanged and both messages empty |
| Handler.OneMessagePerAction | admin/categories.php:28-93 | an authorised POST with a known action sets exactly one of the success and error messages |
| Handler.InvalidIdReportedFirst | admin/categories.php:51-58 | an update or delete with a non-positive or missing id reports "Invalid category." whatever the name, and changes nothing |
| Handler.InUseNeverDeleted | admin/categories.php:79-86 | no request removes a category that some product references |
| Handler.HandlePreservesValid | admin/categories.php:28-94 | every request keeps category names unique and ids issued by the counter |
| Handler.IdsOnlyFromCounter | admin/categories.php:44 | a request never moves the counter back, and a row that was not there before can only carry the counter's previous value |
| Handler.RunPreservesValid | admin/categories.php:28-94 | any sequence of requests keeps category names unique |
| Handler.RunNeverReusesIds | admin/categories.php:44 | once an issued id is gone from the table, no later sequence of requests brings it back |
| Listing.InsertByName | admin/categories.php:99 | inserting a row into a name-sorted list keeps it sorted and adds exactly that row: the result's multiset of rows is the old one plus the new row |
| Listing.InsertKeepsIdsDistinct | admin/categories.php:99 | inserting a row whose id is not yet listed keeps ids distinct |
| Listing.BuildListing | admin/categories.php:99-100 | the listing is sorted by name; it lists every stored category exactly once with its own name, image and product count (0 for a category without products); with unique names the order is strict |
| Scenarios.CreateInEmptyTable | admin/categories.php:29-46 | an admin's create request with a valid name and image in an empty table stores the category under id 1 and reports "Category created." |
| Scenarios.CreateDuplicate | admin/categories.php:36-42 | creating "Hair Care" when row 1 already has that name is refused with the duplicate message and leaves the table as it was |
| Scenarios.RenameExisting | admin/categories.php:60-70 | updating row 1 to "Skin Care"/"skin" overwrites that row and reports success |
| Scenarios.DeleteInUse | admin/categories.php:84-85 | deleting a category that a product references is refused and the row stays |
| Scenarios.DeleteMissing | admin/categories.php:87-89 | deleting a positive id with no row reports success and changes nothing |
| Scenarios.BlankNamesRejected | admin/categories.php:30-34 | a name made only of blanks is read as empty, and an empty name fails the length rule |
| Scenarios.QueryActionOnPost | admin/categories.php:26-29 | a POST whose action appears only in the query string is still executed |
| Scenarios.GateRedirects | admin/categories.php:6-19 | a customer is sent home with the permission message, and a visitor without a user id is sent to the login page |

## Left out

- HTML rendering, escaping, the form markup and the header, footer and alert partials: this is presentation. The model stops at the store, the two messages and the listing rows.
- Sessions, `header()` redirects and `exit`: the session is an explicit input, and a redirect is an outcome value with its target page and flash message.
- The SQL engine and mysqli statement handling: the lookups and writes are map operations. Whether the final write statement succeeds is the boolean input `written`. When it is false, the "Failed to … category." message is set and the store is unchanged.
- `FILTER_SANITIZE_STRING` (line 24): its exact rewriting (tag stripping, quote encoding) is deprecated PHP behaviour. Only the `trim` that follows it is modelled. The filter can change a field's length: `Men's` (5 characters) is stored as `Men&#39;s` (9 characters), and the 64-character rule (lines 33 and 57) applies to the encoded text. The model applies the rule to the unfiltered text, so a name near 64 characters that contains quotes or tags can be accepted here and refused by the code, or the reverse.
- PHP's `(int)` conversion of `category_id`: the id is an `int` input, and a missing field is 0.
- Collation: names are compared by exact character equality, and the listing is ordered by character code. The database's default collation may instead ignore case or accents in both the duplicate checks and the order.
- Ties in the listing order: SQL leaves the order of rows with equal names unspecified. `BuildListing` promises only non-strict order in that case. Under the unique-name invariant there are no ties.
- The race between a duplicate pre-check and the write, and the database's own unique constraint: the model is sequential. A write rejected by the constraint is covered by `written` being false.
- Auto-increment details: ids come from a counter that only grows, so a new id is always fresh. Counter resets by the database engine and ids consumed by failed inserts are not modelled.
- The listing is built from the store after the action. Its query failing (the `: []` fallback on line 100) is not modelled.
