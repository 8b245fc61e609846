# HomeStock inventory core, modelled in Dafny

HomeStock is a household-inventory web application. Users record items with a
quantity, an optional expiry date, a low-stock threshold and an optional
recurring-purchase cycle. The application derives "low stock" and "expiring
soon" alerts from the list.

This project models the application's decision logic as pure functions over
immutable datatypes. The clock is always an explicit `now: int` in milliseconds:

- **Item schema** (`Validations`). It covers the per-field rules, the defaults and
  the two cross-field rules. It returns the normalised item or the list of
  field-scoped issues. The schema library treats two kinds of field failure
  differently. A failed minimum still lets the cross-field step run. An invalid
  date or an unknown cycle name aborts the object, so the cross-field step does
  not run. The model keeps that difference.
- **Predefined catalog** (`Catalog`). It holds the catalog table, lookups by value,
  label and barcode, the uniqueness facts those lookups rely on, and the sample
  inventory.
- **Item form** (`ItemForm`). It models:
  - the add-mode and edit-mode resets;
  - the quantity stepper;
  - catalog auto-fill from a selection or a barcode;
  - name resolution on submit.

  It also proves the edit → validate → submit round trip.
- **Dashboard alerts** (`Alerts`). The low-stock and expiring-soon lists and the
  alert count.
- **Inventory hook** (`InventorySync`, `NameSort`). It models:
  - snapshot parsing;
  - the name sort, which yields a sorted permutation with the same ids;
  - the payload each add or edit would write;
  - the guards;
  - the display name used on delete;
  - the add/edit → read-back round trip.
- **Inventory table** (`InventoryTable`). The row highlight, the low-stock badge
  and the expiry column. Lemmas tie these to the dashboard's lists.

Supporting modules:

- `Types`: the item record, shared by the application form and the stored form.
- `Wrappers`: `Option` and `Result`.
- `JsStrings`: `trim` and the string order.
- `Seqs`: `filter` and `find`.
- `InstantText`: the text encoding of an instant.

A JavaScript `Date` is `At(ms)` or `InvalidDate`, so the model covers these cases:

- the schema's date check;
- `isBefore`/`isPast` on an invalid date, which are always false;
- the `RangeError` that `toISOString` and relative formatting raise on an
  invalid date.

Where descriptions of this application and its code differ, the model follows
the code:

- No change-history records or atomic batches are written. Each handler issues
  one store call.
- An absent `expiryDate` is written as `undefined`, not `null`. `recurringCycle` is
  passed through unchanged, even on a non-recurring item.
- `customName` is not dropped before saving. The submit spread keeps it.
- Edit and delete do not check that the item is in the local list. Only the
  store/user guard can skip them.

## Model

| member | source | states |
|---|---|---|
| Validations.Validate | src/lib/validations.ts:3-27 | Accepts exactly the inputs meeting every rule:<br>- name non-empty;<br>- quantity ≥ 0;<br>- a valid date if any;<br>- threshold ≥ 0 if given;<br>- cycle one of daily/weekly/monthly if given;<br>- a non-blank custom name for "other";<br>- a cycle when recurring.<br>On success it applies the defaults (threshold 5, not recurring) and carries every other field over. A failure carries at least one issue. |
| Validations.IssuePaths | src/lib/validations.ts:3-27 | For each field, the field's path carries an issue exactly when its rule fails.<br>The custom-name and missing-cycle issues are raised only when no invalid date and no unknown cycle aborted the object. |
| Validations.PathsOfFieldIssues | src/lib/validations.ts:4-11 | The paths carrying a per-field issue are exactly the failing fields, and there are as many issues as paths, so each failing field raises exactly one issue. The failing fields are:<br>- empty name;<br>- negative quantity;<br>- invalid date;<br>- negative threshold;<br>- unknown cycle. |
| Validations.ParseCycle | src/lib/validations.ts:10 | Only "daily", "weekly" and "monthly" name a cycle, and the parsed cycle's name is the input string. |
| Validations.MissingCustomNameIsOnlyIssue | src/lib/validations.ts:13-19 | With the field rules met and no missing cycle, "other" with an absent, empty or white-space custom name fails with exactly the custom-name issue. |
| Validations.MissingCycleIsOnlyIssue | src/lib/validations.ts:20-26 | With the field rules met and a usable custom name whenever "other" is selected, a recurring item without a cycle fails with exactly the recurring-cycle issue. |
| Validations.FieldIssuesOnePerPath | src/lib/validations.ts:4-11 | No path carries two per-field issues: the number of issues equals the number of paths. |
| Validations.BothCrossFieldIssues | src/lib/validations.ts:12-27 | Both refinement issues are reported together, custom name first. |
| Validations.InvalidCycleSkipsRefinement | src/lib/validations.ts:10-27 | An unknown cycle name rejects the input, and neither refinement issue appears. |
| Validations.CycleOnNonRecurringAccepted | src/lib/validations.ts:20-26 | A non-recurring item is accepted, with or without a cycle, once the field rules and the custom-name rule are met. A cycle it has is kept. |
| Validations.CustomNameBesideCatalogValueAccepted | src/lib/validations.ts:13-19 | A catalog value is accepted whatever the custom name, once the field rules and the cycle rule are met. The custom name is passed through. |
| JsStrings.TrimEmptyIffAllWhiteSpace | src/lib/validations.ts:13 | `trim()` yields "" exactly when the string is all white space. The empty string counts as all white space. |
| Catalog.ValuesDistinct | src/lib/data.ts:3-17 | Catalog values are pairwise distinct. |
| Catalog.LabelsDistinct | src/lib/data.ts:3-17 | Catalog labels are pairwise distinct. |
| Catalog.BarcodesDistinct | src/lib/data.ts:4-15 | Barcodes, where present, are pairwise distinct. |
| Catalog.OtherEntryUnique | src/lib/data.ts:16 | Exactly one entry, the last, has value "other". Lookup by "other" finds it, with label "Other...", no barcode and no threshold. |
| Catalog.OtherLabelOnlyOnOther | src/lib/data.ts:3-17 | An entry has value "other" exactly when it has label "Other...". No value is empty. |
| Catalog.ThresholdsPositive | src/lib/data.ts:4-15 | Every threshold the catalog defines is at least 1. |
| Catalog.ThresholdFallbackOnlyWhenAbsent | src/lib/data.ts:4-15 | For catalog entries, the falsy fallback of the threshold to 5 equals the threshold when present and 5 when absent. |
| Catalog.FindByValueExact | src/components/add-item-sheet.tsx:84 | Lookup by value returns entry e exactly when e is the catalog entry with that value. |
| Catalog.FindByLabelExact | src/components/add-item-sheet.tsx:55 | Lookup by label returns entry e exactly when e is the catalog entry with that label. |
| Catalog.FindByBarcodeExact | src/components/add-item-sheet.tsx:95 | Lookup by barcode returns e exactly when e carries that barcode, so there is at most one match. |
| Catalog.DefaultInventoryIdsDistinct | src/lib/data.ts:19-49 | The sample items' ids are distinct. |
| SampleInventory.SampleAlerts | src/lib/data.ts:19-49 | On the sample data both dashboard lists are [Milk, Bread] and the alert count is 4:<br>- Milk: 1 ≤ 2, expires in 2 days;<br>- Bread: 1 ≤ 1, expired a day ago;<br>- Eggs: 12 > 6, expires in 14 days, so it is in neither list. |
| SampleInventory.SampleRowStyles | src/lib/data.ts:19-49 | In the table the sample rows are Milk accent, Eggs plain and Bread destructive. |
| ItemForm.AddDefaultsNeedOnlyAName | src/components/add-item-sheet.tsx:67-76 | The add reset has quantity 1, threshold 5, not recurring, an empty name and an empty barcode. Submitted as is, it fails with exactly the name-required issue. |
| ItemForm.ResetForEdit | src/components/add-item-sheet.tsx:55-65 | A stored name equal to a catalog label maps to that entry's value with an empty custom name. Any other name maps to "other" with the name as custom name. The other fields are copied, and the cycle name parses back to the stored cycle. |
| ItemForm.AdjustQuantity | src/components/add-item-sheet.tsx:102-105 | The quantity becomes max(0, current + amount): never negative, zero only when the sum is not positive. Nothing else changes. |
| ItemForm.SelectPredefined | src/components/add-item-sheet.tsx:81-90 | The name is always the chosen value.<br>For a non-"other" catalog value, the barcode becomes the entry's barcode or "" and the threshold the entry's threshold or 5.<br>"other" or an unknown value changes only the name. |
| ItemForm.EnterBarcode | src/components/add-item-sheet.tsx:92-100 | The barcode is always taken.<br>A matching entry also sets the name to its value and the threshold to its threshold or 5.<br>A non-matching barcode changes nothing else. |
| ItemForm.ResolveName | src/components/add-item-sheet.tsx:108 | The final name is the custom name for "other" and the label of the entry with the selected value otherwise. The lookup fails exactly when no entry has that value. |
| ItemForm.Submit | src/components/add-item-sheet.tsx:107-117 | The submitted item is the validated values with the resolved name. Every other field is carried over. Edit mode keeps the edited item's id. |
| ItemForm.EditNameRoundTrip | src/components/add-item-sheet.tsx:55-58 | For any stored name except "Other...", edit reset followed by name resolution gives the stored name back. |
| ItemForm.OtherLabelBreaksRoundTrip | src/components/add-item-sheet.tsx:55-58 | A stored name "Other..." resets to selection "other" with an empty custom name. |
| ItemForm.ResetForEditAcceptable | src/components/add-item-sheet.tsx:55-65 | The edit reset of a valid stored item passes the schema. |
| ItemForm.EditRoundTrip | src/components/add-item-sheet.tsx:55-65 | Editing a valid stored item without changes validates and resubmits the same item, same id. Only the transient custom name differs. |
| Alerts.DeriveAlerts | src/components/homestock-layout.tsx:52-60 | While not loaded, both lists are empty. Once loaded:<br>- low stock holds exactly the items with quantity ≤ threshold;<br>- expiring soon holds exactly the items with a valid expiry strictly before now + 7 days. It includes expired items, excludes the boundary, and never holds an item with no expiry.<br>Each list keeps every qualifying item with its multiplicity and is an order-preserving subsequence of the inventory. |
| Alerts.TotalAlertsIsWeightSum | src/components/homestock-layout.tsx:62 | The alert count is the sum over items of one per list the item is in, so an item in both lists counts twice. |
| NameSort.Insert | src/hooks/use-inventory.ts:27 | Inserting into a name-sorted list gives a name-sorted list with one more occurrence of the item. |
| NameSort.SortByName | src/hooks/use-inventory.ts:27 | The result is sorted by name and is a permutation of the input. |
| NameSort.SortSortedIsIdentity | src/hooks/use-inventory.ts:27 | Sorting an already sorted list changes nothing. |
| InstantText.DecodeEncode | src/hooks/use-inventory.ts:37 | A written expiry instant reads back as the same instant. |
| InstantText.EncodeInjective | src/hooks/use-inventory.ts:37 | Distinct instants are written as distinct texts. |
| InventorySync.ParseExpiry | src/hooks/use-inventory.ts:26 | A falsy stored expiry (absent or "") parses to absent. The encoding of an instant parses to that instant. |
| InventorySync.ParseAll | src/hooks/use-inventory.ts:23-26 | One item per document, in document order. |
| InventorySync.OnSnapshot | src/hooks/use-inventory.ts:21-30 | With no snapshot data, the list is unchanged. A snapshot replaces the list with a name-sorted permutation of its parsed documents, whose ids are the documents' ids. |
| InventorySync.IdsOfPermutation | src/hooks/use-inventory.ts:23-27 | Permuting items permutes their ids alike. |
| InventorySync.FirstSnapshotFromInitial | src/hooks/use-inventory.ts:10-29 | The list starts empty and stays so until a snapshot arrives. The first snapshot fills it with exactly the parsed documents, one item per document. |
| InventorySync.SnapshotIdempotent | src/hooks/use-inventory.ts:21-30 | Re-delivering a snapshot republishes the same list, and the published list needs no re-sorting. |
| InventorySync.ToStored | src/hooks/use-inventory.ts:35-38 | Writing fails exactly on an Invalid Date. Otherwise every field but the expiry is carried over, and the expiry is absent or the instant's encoding. |
| InventorySync.HandleAdd | src/hooks/use-inventory.ts:32-42 | Skipped exactly without store and user. It throws exactly on an Invalid Date. Otherwise it issues one add with the stored shape of the item. |
| InventorySync.HandleEdit | src/hooks/use-inventory.ts:44-56 | Skipped exactly without store and user. It throws exactly on an Invalid Date. Otherwise it issues one update of the item's document. The payload is the item minus its id: exactly what adding the same fields would write. |
| InventorySync.HandleDelete | src/hooks/use-inventory.ts:58-69 | Without store and user it is skipped. Otherwise it issues exactly one delete of the given id. |
| InventorySync.DeleteDisplayName | src/hooks/use-inventory.ts:60 | An id not in the list gives "Item". Any other result is the name of a listed item with that id. |
| InventorySync.DeleteDisplayNameOfListed | src/hooks/use-inventory.ts:60 | With distinct ids, a listed id gives that item's name, or "Item" when the name is empty. |
| InventorySync.AddThenReadBack | src/hooks/use-inventory.ts:21-38 | An added item with a valid or absent expiry reads back from a snapshot with the assigned id and identical fields. |
| InventorySync.EditThenReadBack | src/hooks/use-inventory.ts:48-52 | An edited item reads back from a snapshot as itself. |
| InventoryTable.RowStyleOf | src/components/inventory-table.tsx:19-27 | Destructive exactly when the expiry is past, taking precedence over low stock. Accent exactly when not expired and either low stock or expiring before now + 3 days. No expiry and quantity > threshold gives no style. |
| InventoryTable.RenderExpiry | src/components/inventory-table.tsx:29-33 | The expiry column shows:<br>- "N/A" exactly with no date;<br>- "Expired" exactly for a past date;<br>- a relative distance ≥ 0 to the date otherwise;<br>- a RangeError for an Invalid Date. |
| InventoryTable.BadgeMatchesDashboard | src/components/inventory-table.tsx:66 | The Low Stock badge shows exactly for the items on the dashboard's low-stock list. |
| InventoryTable.HighlightedRowsAreAlerts | src/components/inventory-table.tsx:19-27 | A highlighted row's item is on a dashboard list, and an expired row's item is on the expiring-soon list. |
| InventoryTable.ExpiredRowShowsExpired | src/components/inventory-table.tsx:19-33 | The destructive highlight and the "Expired" label agree. |
| Seqs.Find | src/components/add-item-sheet.tsx:84 | `find` returns the first element satisfying the predicate: every earlier element fails it. It returns nothing exactly when no element satisfies it. |
| Seqs.Filter | src/components/homestock-layout.tsx:54-58 | `filter` keeps exactly the qualifying elements, each with its multiplicity, as an order-preserving subsequence. |

## Left out

- Store I/O is not modelled: the live collection subscription, the non-blocking add/update/delete calls, document paths and toasts. Handlers return the call they would issue (`Outcome`).
- The store's own rejection of `undefined` field values is store behaviour and is not modelled.
- `isLoaded` is the negation of the subscription's loading flag. It enters the model as the `loaded` parameter of `Alerts.DeriveAlerts`.
- Sign-in, the login page and the dashboard's rendering are identity-provider glue and presentation.
- React state, memoisation and form-library plumbing are not modelled. The form's quick-set buttons (1, 5 or 10 units) are not modelled either.
- Numbers are integers. The schema's string-to-number coercion, NaN and floating point are not modelled.
- Dates are not modelled in full:
  - Calendar arithmetic (`addDays`, `setDate`, daylight saving) is fixed-length days of 86,400,000 ms.
  - The ±8.64e15 ms range of JavaScript dates is not enforced.
- Text formats are not modelled:
  - `toISOString` is modelled as a decimal rendering of the millisecond count.
  - Reading back accepts decimal text only. Other text becomes the Invalid Date, whereas the real `Date` parser accepts more formats.
  - Relative formatting is reduced to the distance in milliseconds.
- `localeCompare` is modelled as code-unit lexicographic order. Locale collation rules are not modelled.
- Strings are sequences of Unicode scalar values, not UTF-16 code units. The name's minimum length and the white-space set of `trim` are counted accordingly.
- NameSort.SortByName: states sortedness and permutation but not stability. The insertion is stable, like JavaScript's sort, but no lemma states it.
- ItemForm.Submit: requires a custom name to be present when "other" is selected. The source asserts this with `!`, and validation guarantees it before submit runs.
