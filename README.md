# pegeditor, modelled in Dafny

pegeditor keeps a buy-price "peg" for every product configuration: a capacity (such as
"128GB"), an interface and a condition. A configuration (`peg_configs`) owns:

- price sources (`peg_points`), each with a price, a quantity and a weight;
- a daily price history per point (`peg_point_history`);
- price modifiers (`peg_modifiers`);
- sales rows (`sales_data`);
- audit snapshots of the computed peg (`peg_history`).

PHP endpoints under `api/` save, load and delete these rows. An older generation of the
save and load endpoints sits under `API/`. The browser editor in `js/app.js`, with the
arithmetic in `js/helpers.js`, edits one peg block per configuration and works out the
suggested price. The spreadsheet tool in `js/tableEditor.js` fills buy prices into a sheet
from the newest snapshots and exports the sheet as CSV.

The model has these parts:

- The database is the value `Schema.Tables`. It holds one sequence per table, a set of
  capacities and an id counter.
- Every endpoint is a function from tables and request to response and new tables:
  `Writes`, `DatedHistory`, `CascadeDelete`, `CapacityList`, `Legacy`, `Reads` and
  `ComboAverages`.
- The PHP code changes the database statement by statement inside a transaction. That is
  modelled by the classes `Store.PegStore` and `LegacyDatabase.LegacyStore`. Their methods
  run the same statements in the same order on a mutable field and roll back on failure.
  Each method is proved equal to its endpoint function.
- Lemmas (`SaveFacts`, `LegacyFacts`, and those beside each endpoint) prove what each
  endpoint promises:
  - the schema's unique keys are preserved;
  - one history row per point and day;
  - modifiers and sales are replaced, not accumulated;
  - idempotence of repeated saves;
  - which rows a read returns, and in what order.
- `Pricing` holds the weighted-average arithmetic of the browser and of the server, and
  proves where the two agree and where they differ.
- `Client` and `Editor` hold the browser-side loops and the editor state. The editor state
  is the class `Editor.PegBlock`.
- `Sheet` holds the spreadsheet tool. The sheet is the class `Sheet.PegSheet`, with its
  grid as a field.
- `Text`, `Lex`, `Days` and `Sorting` hold shared definitions: trimming, ASCII
  lower-casing, the text order MySQL uses on `Y-m-d` days, and sorting.

## Model

| member | source | states |
|---|---|---|
| CapacityList.SaveCapacity | api/save_capacity.php:5-32 | An empty trimmed label answers Required. A label already present answers AlreadyExists. Otherwise the label is added. Only the capacity set changes, and the label is present after any non-Required answer. |
| CapacityList.SaveCapacityKeepsTrimmed | api/save_capacity.php:5-6 | Stored capacities stay trimmed and non-empty. |
| CapacityList.SaveCapacityIdempotent | api/save_capacity.php:13-32 | Repeating an answered call answers AlreadyExists and changes nothing. |
| Store.PegStore.SaveCapacity | api/save_capacity.php:5-32 | The lookup-then-insert on the store equals CapacityList.SaveCapacity. |
| Writes.UpsertHistory | api/save_peg.php:127-135 | The history upsert succeeds exactly when the point exists and the day is a date. It replaces or adds the (point, day) row. |
| Writes.ResolveConfig | api/save_peg.php:69-107 | Resolving the config changes only the configs table and the id counter. |
| Writes.SavePeg | api/save_peg.php:38-60 | InvalidDate, FutureDate and MissingFields are answered in the endpoint's order, each exactly when its condition holds. A saved answer carries the saved day. Every error leaves the tables unchanged. |
| Writes.AsPegPoints | api/save_peg.php:202-214 | The payload points are read as pricing points one for one. |
| Store.SavedTransaction | api/save_peg.php:62-294 | A successful save is the config upsert, then the points loop, then the modifier and sales replacement, then the snapshot upsert. |
| Store.PegStore.Restore | api/save_peg.php:297-307 | The rollback restores the tables taken at the start of the transaction. |
| Store.PegStore.SavePeg | api/save_peg.php:29-307 | The statement-by-statement save, with rollback on failure, leaves the response and tables that Writes.SavePeg gives. |
| Store.PegStore.ResolveConfig | api/save_peg.php:69-107 | The find-then-update or insert on the store equals Writes.ResolveConfig. |
| Store.PegStore.SavePoints | api/save_peg.php:137-178 | The points loop reports failure exactly when Writes.SavePoints fails. On success it leaves that function's tables. |
| Store.PegStore.ReplaceModifiers | api/save_peg.php:183-197 | Deleting and then inserting the modifiers equals Writes.ReplaceModifiers. |
| Store.PegStore.ReplaceSales | api/save_peg.php:226-254 | Deleting the sales and inserting the labelled rows equals Writes.ReplaceSales. |
| Store.PegStore.UpsertSnapshot | api/save_peg.php:259-286 | The snapshot insert-or-refresh equals Writes.UpsertSnapshot. |
| SaveFacts.SavePointStep | api/save_peg.php:137-178 | One payload point updates the stored rows naming it within the config, or appends one row under the next id with the config and the entry's label, channel, url, price, qty and weight. The history gets the entry's price and qty on the day, under the named id or the new one. The other tables stay as they were. |
| SaveFacts.SavePointInserts | api/save_peg.php:160-177 | An inserting entry appends exactly its new row, advances the counter by one, and the new id's history on the day holds the entry's price and qty. |
| SaveFacts.SavePointsSplit | api/save_peg.php:137-178 | The loop over the payload is the loop over its first entries followed by the loop over the rest. |
| SaveFacts.SavePointsFrame | api/save_peg.php:137-178 | The points loop changes only points, history and the id counter. The point count grows by the number of inserts. |
| SaveFacts.ApplyKeepsKey | api/save_peg.php:112-116 | Point updates never change a row's id or owner. |
| SaveFacts.SavePointsRows | api/save_peg.php:137-173 | Stored points receive the payload updates in order. New points belong to the config and take fresh ids. |
| SaveFacts.SavePointsIdsBelow | api/save_peg.php:160-173 | Point ids stay below the id counter. |
| SaveFacts.ApplyUntouched | api/save_peg.php:147-159 | A point that no entry names within its config is unchanged. |
| SaveFacts.ApplyLast | api/save_peg.php:147-159 | A point named several times ends with the values of the last entry naming it. |
| SaveFacts.SavePointsKeepsKey | api/save_peg.php:176-177 | History of another day, or of a point no entry names, is left as it was. |
| SaveFacts.SavePointsRecordsHistory | api/save_peg.php:176-177 | After the loop, a named point's history on the saved day holds the price and qty of the last entry naming it. |
| SaveFacts.NotNamedRest | api/save_peg.php:137-178 | No entry of the rest of the payload after an entry names an id that no later entry names. |
| SaveFacts.InsertStep | api/save_peg.php:160-177 | Just before an inserting entry the counter and the point count have advanced by the earlier inserts. The entry appends its row under the counter and records its history, and the rest of the loop ends in the loop's result. |
| SaveFacts.KeptInsert | api/save_peg.php:137-173 | A row appended by an insert keeps its values to the end of the loop when no later entry names its id. |
| SaveFacts.KeptInsertHistory | api/save_peg.php:176-177 | The history an insert records on the day is kept to the end of the loop when no later entry names its id. |
| SaveFacts.SavePointsInsertedRow | api/save_peg.php:160-173 | After the loop, inserting entry j's row sits after the stored rows and the earlier inserts. Its id is the counter plus the number of earlier inserts, in the config, with the entry's values ('' and 0 when missing), unless a later entry names that id. |
| SaveFacts.SavePointsRecordsInsert | api/save_peg.php:160-177 | After the loop, the history of inserting entry j's id on the saved day holds the entry's price and qty, unless a later entry names that id. |
| SaveFacts.ModifierRowsAt | api/save_peg.php:187-197 | Inserted modifier rows carry consecutive ids, the config, and the label and amount with '' and 0 as defaults. |
| SaveFacts.InsertModifiersShape | api/save_peg.php:187-197 | The modifier loop appends exactly those rows and advances the id counter by their number. |
| SaveFacts.ReplaceModifiersContent | api/save_peg.php:183-197 | After the replacement, the config's modifiers are exactly the payload's, in order. Other configs keep theirs. |
| SaveFacts.Labelled | api/save_peg.php:237 | Payload sales rows without a day label are dropped. |
| SaveFacts.SaleRowsAt | api/save_peg.php:230-254 | Inserted sales rows carry consecutive ids, the config, the capacity and the payload values. |
| SaveFacts.InsertSalesShape | api/save_peg.php:230-254 | The sales loop appends one row per labelled payload row. |
| SaveFacts.ReplaceSalesContent | api/save_peg.php:226-254 | After the replacement, the config's sales are exactly the labelled payload rows, in order. Other configs keep theirs. |
| SaveFacts.FindAfterUpdate | api/save_peg.php:80-89 | The config update keeps every triple lookup pointing at the same row, now carrying the new values. |
| SaveFacts.FindAfterAppend | api/save_peg.php:90-107 | A new config is found by its triple once appended. |
| SaveFacts.ResolveConfigFacts | api/save_peg.php:69-107 | After resolving, the triple names a config with the request's margin, mode and name. A config is created only when none had the triple. No config with another id changes. |
| SaveFacts.ResolveConfigUnique | api/save_peg.php:69-107 | Resolving never creates a second config with the same triple. |
| SaveFacts.FindAfterRefresh | api/save_peg.php:259-286 | Refreshing a snapshot keeps its key's lookup on the refreshed row. |
| SaveFacts.FindSnapshotAppend | api/save_peg.php:259-286 | A new snapshot is found by its key once appended. |
| SaveFacts.UpsertSnapshotLookup | api/save_peg.php:259-286 | After the upsert, the (config, saved_at) key holds the snapshot's name, prices, margin and mode. |
| SaveFacts.SameIdsValid | api/save_peg.php:147-159 | Rewriting point columns without touching ids keeps the schema constraints. |
| SaveFacts.InsertPointValid | api/save_peg.php:160-173 | Inserting a point keeps the schema constraints. |
| SaveFacts.UpsertHistoryValid | api/save_peg.php:127-135 | The history upsert keeps one row per (point, day) and the foreign keys. |
| SaveFacts.SavePointValid | api/save_peg.php:137-178 | Saving one point keeps the schema constraints. |
| SaveFacts.SavePointsValid | api/save_peg.php:137-178 | The points loop keeps the schema constraints. |
| SaveFacts.InsertModifiersValid | api/save_peg.php:187-197 | Inserting modifiers keeps the schema constraints. |
| SaveFacts.InsertSalesValid | api/save_peg.php:230-254 | Inserting sales keeps the schema constraints. |
| SaveFacts.UpsertSnapshotValid | api/save_peg.php:259-286 | The snapshot upsert keeps one snapshot per (config, saved_at). |
| SaveFacts.ResolveConfigValid | api/save_peg.php:69-107 | Resolving the config keeps the schema constraints. |
| SaveFacts.ReplaceModifiersValid | api/save_peg.php:183-197 | Replacing modifiers keeps the schema constraints. |
| SaveFacts.ReplaceSalesValid | api/save_peg.php:226-254 | Replacing sales keeps the schema constraints. |
| SaveFacts.SavePegValid | api/save_peg.php:62-294 | A save, successful or not, keeps the schema constraints. In particular history keeps one row per (point, day), however often a payload is repeated. |
| SaveFacts.SavePegConfig | api/save_peg.php:69-107 | After a save, the triple names the saved config with the request's margin, mode and name. It is a new row only when none had the triple. Other configs are unchanged. |
| SaveFacts.SavedPoints | api/save_peg.php:137-178 | The points and history a save commits are those of its points loop. |
| SaveFacts.SavePegPoint | api/save_peg.php:137-159 | After a save, every stored point has received the payload's updates in order. |
| SaveFacts.SavePegNewPoints | api/save_peg.php:160-173 | The points a save appends, one per inserting entry, belong to the saved config and take fresh ids. |
| SaveFacts.PegInsertedIdAfterConfig | api/save_peg.php:90-107 | The id a save gives an inserting entry is the counter after the config step (one more when the config is created) plus the earlier inserts. |
| SaveFacts.SavePegInsertedPoint | api/save_peg.php:160-177 | After a save, inserting entry j's row is in place under that id, in the saved config, with the entry's label, channel, url, price, qty and weight. The id's history on the saved day holds the entry's price and qty. Both hold unless a later entry names that id. |
| SaveFacts.SavePegRecordsHistory | api/save_peg.php:137-178 | After a save, each named point's history on the saved day holds the last entry's price and qty. Missing entries read as 0. |
| SaveFacts.SavePegKeepsOtherDays | api/save_peg.php:127-135 | A save leaves history on any other day untouched. |
| SaveFacts.SavePegModifiersAndSales | api/save_peg.php:183-254 | After a save, the config's modifiers and sales are exactly the payload's. Sales without a day label are skipped. Other configs keep theirs. |
| SaveFacts.SavePegSnapshot | api/save_peg.php:202-286 | After a save, the snapshot at noon of the saved day holds the weighted base price and the base plus the modifier total. It also holds the request's margin, mode and name. |
| SaveFacts.SavePointsSucceeds | api/save_peg.php:137-178 | The points loop cannot fail when every id it updates names a stored point and the day is a date. |
| SaveFacts.SavePegSucceeds | api/save_peg.php:38-60 | A request that is a valid date, not in the future, not blank, and whose ids all exist, is saved. |
| Schema.Select | api/load_config.php:75-81 | The rows a `WHERE config_id = ?` returns are exactly the table's rows owned by the config. |
| Schema.Without | api/save_peg.php:183-185 | The rows left after `DELETE ... WHERE config_id = ?` are exactly those owned by other configs. |
| Schema.SelectAppend | api/save_peg.php:187-197 | Selecting from appended rows selects from each part, in order. |
| Schema.SelectWithout | api/save_peg.php:226-228 | After a config's rows are deleted, every other config keeps its rows in order, and this config has none. |
| Schema.FindConfig | api/save_peg.php:71-78 | The triple lookup finds a config with the triple, or none exactly when no config has it. |
| Schema.ConfigById | api/load_config.php:21-39 | The id lookup finds the config with the id, or none exactly when no config has it. |
| Schema.UpdateConfig | api/save_peg.php:80-89 | Only the config with the id gets the margin, mode and name. A missing margin leaves the old margin. |
| Schema.UpdatePoint | api/save_peg.php:112-116 | Only the point with the id within the config gets the editable columns. |
| Schema.UpdateLive | api/save_peg_history.php:59-63 | Only the point with the id gets the new price and qty. |
| Schema.FindHistory | api/save_peg.php:127-135 | The (point, day) lookup finds a row with the key, or none exactly when no row has it. |
| Schema.ReplaceKey | api/save_peg.php:131-134 | Just the rows holding the key are replaced. |
| Schema.UpsertHistoryRows | api/save_peg.php:127-135 | The upsert's rows are old rows or the new row, and the new row is present. |
| Schema.UpsertHistoryLookup | api/save_peg.php:127-135 | After the upsert the key holds exactly the new row. Every other key keeps its row. |
| Schema.ReplaceKeyLookup | api/save_peg.php:131-134 | A duplicate-key update makes an existing key hold the new row and changes no other key. |
| Schema.AppendLookup | api/save_peg.php:127-130 | An insert of a new key adds exactly that key. |
| Schema.UpsertKeepsKeysUnique | api/save_peg.php:127-135 | The upsert never creates a second row for a (point, day). |
| Schema.MaxDay | api/save_peg_history.php:45-51 | `MAX(day_date)` is none exactly on an empty table. Otherwise it is a stored day that no stored day sorts after. |
| Schema.FindSnapshot | api/save_peg.php:259-286 | The (config, saved_at) lookup finds a row with the key, or none exactly when no row has it. |
| Schema.SnapshotById | api/delete_history.php:17-35 | The snapshot id lookup finds the row with the id, or none exactly when no row has it. |
| Schema.UpsertSnapshotRows | api/save_peg.php:259-286 | A new key is appended. An existing key's rows are refreshed in place and every other row stays. |
| DatedHistory.SaveHistory | api/save_peg_history.php:10-116 | A payload without date or points answers InvalidPayload. No answer but Recorded changes the tables. Recorded reports whether the date is the latest, as read before any write. |
| DatedHistory.IsLatestIff | api/save_peg_history.php:45-57 | The date is latest exactly when no stored day sorts after it. |
| DatedHistory.IsLatestChronological | api/save_peg_history.php:45-57 | On well-formed days the text comparison is the calendar one. |
| DatedHistory.LastEntry | api/save_peg_history.php:65-97 | The last entry naming a point, or none exactly when no entry names it. |
| DatedHistory.LastEntryIs | api/save_peg_history.php:65-97 | An entry that no later entry overrides is the last one naming its point. |
| DatedHistory.LiveIdempotent | api/save_peg_history.php:86-96 | Applying a batch's live update twice is the same as applying it once. |
| DatedHistory.RecordFrame | api/save_peg_history.php:65-97 | The loop writes only history and live points, and keeps every point's id. |
| DatedHistory.RecordPoint | api/save_peg_history.php:86-96 | A stored point ends with its last entry's price and qty after a latest-date batch. Otherwise it is untouched. |
| DatedHistory.RecordSucceeds | api/save_peg_history.php:65-97 | The batch commits exactly when every entry with a positive id names an existing point and the date is a date. |
| DatedHistory.RecordLookup | api/save_peg_history.php:65-97 | After the batch, a named point's history on the date is its last entry. Every other (point, day) keeps its row. |
| DatedHistory.RecordDays | api/save_peg_history.php:74-81 | Every history row after the batch is an old row or a row of the saved date. |
| DatedHistory.RecordValid | api/save_peg_history.php:65-97 | The batch keeps the schema constraints. |
| DatedHistory.RecordStepValid | api/save_peg_history.php:74-96 | One recorded entry keeps the schema constraints. |
| DatedHistory.SaveHistoryRecords | api/save_peg_history.php:65-97 | Each entry with a positive id that no later entry overrides has its history for the date recorded with its price and qty. |
| DatedHistory.SaveHistoryKeepsOthers | api/save_peg_history.php:65-97 | History of other days, and of points no entry names, is left as it was. |
| DatedHistory.LatestUpdatesLive | api/save_peg_history.php:86-96 | On a latest date, each named point's live price and qty are those of its last entry. |
| DatedHistory.SaveHistoryKeepsPointFields | api/save_peg_history.php:59-63 | Only a point's price and qty may change. Label, channel, url, weight, owner and id never do. |
| DatedHistory.OlderDateKeepsLivePoints | api/save_peg_history.php:86-96 | A date before the stored maximum changes no live row. |
| DatedHistory.SaveHistorySucceeds | api/save_peg_history.php:26-116 | A request with both fields commits exactly when every entry it writes is admitted. |
| DatedHistory.SaveHistoryValid | api/save_peg_history.php:26-116 | The endpoint keeps the schema constraints. |
| DatedHistory.RecordKeepsLatest | api/save_peg_history.php:45-97 | Recording on a date keeps the latest-date decision for that date. |
| DatedHistory.RecordAgainKeepsTables | api/save_peg_history.php:65-97 | Recording a batch again commits and leaves every table but history as the first run left it. |
| DatedHistory.RecordAgainKeepsHistory | api/save_peg_history.php:74-81 | Recording a batch again finds the same history row for every (point, day). |
| DatedHistory.SaveHistoryIdempotent | api/save_peg_history.php:26-104 | Sending the same payload again gives the same answer and the same store, up to the order of history rows. |
| Store.PegStore.SaveHistory | api/save_peg_history.php:26-116 | The transaction on the store, with its rollback, equals DatedHistory.SaveHistory. |
| CascadeDelete.DeleteHistory | api/delete_history.php:5-79 | A missing or zero id answers MissingId. An unknown snapshot answers NotFound. Failed is answered exactly when some history row names a point of the owning config, which the points delete trips over. Every answer but Deleted leaves the tables as they were. |
| CascadeDelete.ConfigByIdWithout | api/delete_history.php:64-66 | After the config delete, that id is gone and every other id finds what it found before. |
| CascadeDelete.SnapshotByIdWithout | api/delete_history.php:59-61 | After the snapshot delete, that id is gone and every other id finds what it found before. |
| CascadeDelete.DeleteRemoves | api/delete_history.php:37-66 | On success the config, its modifiers, sales and points, and the named snapshot are gone. |
| CascadeDelete.DeleteScoped | api/delete_history.php:44-66 | The delete leaves other configs and their rows, other snapshots, the point history and the capacities untouched. |
| CascadeDelete.WithoutPositions | api/delete_history.php:44-66 | The rows a delete keeps sit at increasing positions of the old table. |
| CascadeDelete.WithoutKeepsTriplesUnique | api/delete_history.php:64-66 | Deleting configs keeps the triples unique. |
| CascadeDelete.WithoutKeepsSnapshotKeysUnique | api/delete_history.php:59-61 | Deleting snapshots keeps the snapshot keys unique. |
| CascadeDelete.DeleteValid | api/delete_history.php:40-79 | The endpoint keeps the schema constraints. In particular no history row is left naming a deleted point. |
| CascadeDelete.CascadeKeepsHistoryWellFormed | api/delete_history.php:54-56 | When no history names the config's points, deleting them keeps every history row's point present. |
| CascadeDelete.CascadeKeepsIdsBelow | api/delete_history.php:44-66 | Deletes keep every id below the id counter. |
| Store.PegStore.DeleteHistory | api/delete_history.php:5-79 | The five deletes, run in the endpoint's order on the store with rollback, equal CascadeDelete.DeleteHistory. |
| Legacy.EditPoint | API/save_peg.php:92-96 | Only the point with the id within the config gets the new label, channel, url, price and weight. |
| Legacy.RecordPrice | API/save_peg.php:104-149 | The exact (point, day, price) row is added unless it is already there. The insert fails exactly when the row is new and the point does not exist. Only the price rows change. |
| Legacy.Save | API/save_peg.php:29-263 | MissingFields is answered exactly when a field of the triple is blank. No answer but Saved changes the tables. |
| Legacy.SaleViews | API/load_config.php:66-74 | The sales columns the older load returns, one for one. |
| Legacy.LoadConfig | API/load_config.php:7-92 | A missing id answers MissingId and an unknown id NotFound. Otherwise the config's view is returned, with exactly that config's points and modifiers, and the sales columns of exactly that config's sales rows. |
| Legacy.SelectedSales | API/load_config.php:66-74 | Every returned sales row is the view of one of the config's rows, and every row of the config is returned. |
| LegacyFacts.RecordPriceIdempotent | API/save_peg.php:141-149 | Checking before inserting makes a repeated price a no-op. |
| LegacyFacts.DistinctPricesAccumulate | API/save_peg.php:104-149 | Without a unique key on (point, day), a second price on the same day is a second row, and the first row stays. |
| LegacyFacts.RecordPriceValid | API/save_peg.php:104-149 | Recording a price keeps price rows distinct and pointing at stored points. |
| LegacyFacts.SavePointStep | API/save_peg.php:116-149 | One payload point edits the rows naming it within the config, or appends one under the next id with the config and the entry's label, channel, url, price and weight. Its (point, day, price) row is then stored. |
| LegacyFacts.SavePointShape | API/save_peg.php:116-149 | One payload point leaves configs, modifiers, sales and snapshots alone, and adds at most its own price row. |
| LegacyFacts.SavePointsFrame | API/save_peg.php:116-150 | The loop changes only points, prices and the id counter. Earlier price rows stay in place, and every new one is for the saved day. |
| LegacyFacts.SavePointsCounts | API/save_peg.php:116-150 | The loop leaves the other tables alone, and points and ids grow by the number of inserts. |
| LegacyFacts.SavePointsPrices | API/save_peg.php:141-149 | Price rows only grow, and only with rows for the saved day. |
| LegacyFacts.SavePointPrices | API/save_peg.php:141-149 | One point's price step only appends, and only for the saved day. |
| LegacyFacts.ApplyKeepsKey | API/save_peg.php:92-96 | Edits never change a point's id or owner. |
| LegacyFacts.SavePointsRows | API/save_peg.php:116-139 | Stored points receive the payload's edits. New points belong to the config and take fresh ids. |
| LegacyFacts.SavePointsRecords | API/save_peg.php:141-149 | After the loop, every entry's (point, day, price) row is stored. |
| LegacyFacts.RepeatKeepsPrices | API/save_peg.php:141-149 | Re-running the loop over points whose price rows are already stored adds no price row. |
| LegacyFacts.SavePointsSucceeds | API/save_peg.php:116-150 | The loop cannot fail when every id it updates names a stored point. |
| LegacyFacts.SavePointValid | API/save_peg.php:116-149 | One payload point keeps price rows distinct and known. |
| LegacyFacts.SavePointsValid | API/save_peg.php:116-150 | The loop keeps price rows distinct and known. |
| LegacyFacts.AppendModifiersShape | API/save_peg.php:156-166 | The modifier loop appends one row per payload modifier, and deletes nothing first. |
| LegacyFacts.InsertSalesShape | API/save_peg.php:198-215 | The sales loop appends one row per payload row, a missing day label as ''. |
| LegacyFacts.ResolveFacts | API/save_peg.php:54-87 | The found config keeps its margin and gets the request's mode and name. Otherwise one config is created without a margin. No other config and no other table changes. |
| LegacyFacts.UpdateKeepsKeys | API/save_peg.php:69-75 | Updating mode and name keeps every config id and triple. |
| LegacyFacts.AppendKeepsKeys | API/save_peg.php:79-86 | A config created under the next id with an unused triple keeps the keys distinct. |
| LegacyFacts.ResolveValid | API/save_peg.php:54-87 | Resolving the config keeps the older schema's constraints. |
| LegacyFacts.Steps | API/save_peg.php:47-249 | A successful older save is the config step, the points loop, the modifier append, the sales replacement and the audit upsert. |
| LegacyFacts.SaveSucceeds | API/save_peg.php:41-249 | A request naming its triple, whose updated ids all name stored points, is saved. |
| LegacyFacts.SaveConfig | API/save_peg.php:54-87 | After the older save the triple names the saved config with its old margin, or none for a new config. It has the request's mode and name. No margin is ever written. |
| LegacyFacts.SaveRecordsPrices | API/save_peg.php:116-150 | Price rows are never changed or removed, every added row is for today, and each updating entry's (point, today, price) row is stored. |
| LegacyFacts.SaveTwiceKeepsPrices | API/save_peg.php:141-149 | Saving again a payload whose entries all name points is saved and adds no price row. |
| LegacyFacts.SavePointRows | API/save_peg.php:116-139 | After the save, stored points carry the payload's edits and appended points belong to the config. |
| LegacyFacts.SavedRows | API/save_peg.php:156-215 | The modifiers are the old rows plus the payload rows. The sales are the other configs' rows plus the payload rows. |
| LegacyFacts.SaveAppendsModifiers | API/save_peg.php:152-166 | Modifiers accumulate: the old rows stay, and one row per payload modifier follows. |
| LegacyFacts.AppendedModifierRows | API/save_peg.php:161-166 | The appended rows carry the config, the label and the amount, with '' and 0 as defaults. |
| LegacyFacts.SaveReplacesSales | API/save_peg.php:191-215 | Afterwards the config's sales are exactly the payload rows, and other configs keep theirs. |
| LegacyFacts.SaveSnapshot | API/save_peg.php:167-245 | The audit row at `now` holds the server base price (weights at most 0 read as 1), the base plus the modifier total, and the mode and name. The margin is kept from an existing row, or none for a new one. |
| LegacyFacts.SaveValid | API/save_peg.php:47-249 | The older save keeps the constraints of the older schema. |
| LegacyFacts.ConfigByIdAt | API/load_config.php:21-28 | With distinct ids, a config's id finds that config. |
| LegacyFacts.SavedConfigById | API/load_config.php:21-28 | After a save, the returned config id finds the config the triple finds. |
| LegacyFacts.LoadAfterSave | API/load_config.php:7-92 | Loading the saved config returns its triple, the request's mode and name, and exactly the payload's sales rows. |
| LegacyDatabase.SavedTransaction | API/save_peg.php:47-249 | The older save on values is the composition of its statements. |
| LegacyDatabase.LegacyStore.Restore | API/save_peg.php:256-263 | The rollback restores the tables taken at the start of the transaction. |
| LegacyDatabase.LegacyStore.Save | API/save_peg.php:29-263 | The statement-by-statement older save, with rollback on failure, equals Legacy.Save. |
| LegacyDatabase.LegacyStore.ResolveConfig | API/save_peg.php:54-87 | The find-then-update or insert on the store equals Legacy.Resolve. |
| LegacyDatabase.LegacyStore.SavePoints | API/save_peg.php:116-150 | The points loop on the store reports failure as Legacy.SavePoints does, and otherwise leaves its tables. |
| LegacyDatabase.LegacyStore.AppendModifiers | API/save_peg.php:156-166 | The modifier inserts on the store equal Legacy.AppendModifiers. |
| LegacyDatabase.LegacyStore.ReplaceSales | API/save_peg.php:194-215 | The sales delete and inserts on the store equal Legacy.ReplaceSales. |
| LegacyDatabase.LegacyStore.UpsertSnapshot | API/save_peg.php:220-245 | The audit upsert on the store equals Legacy.UpsertSnapshot. |
| Reads.ById | api/load_peg_data.php:37 | `ORDER BY id ASC` returns the same rows, by ascending id. |
| Reads.OwnedById | api/load_peg_data.php:37-65 | A config's rows by ascending id are exactly that config's rows. |
| Reads.PointsById | api/load_peg_by_date.php:51-61 | The config's points by ascending id are exactly its points. |
| Reads.ModifiersById | api/load_config.php:75-81 | The config's modifiers by ascending id are exactly its modifiers. |
| Reads.SalesById | api/load_config.php:91-97 | The config's sales by ascending id are exactly its sales. |
| Reads.PointsInOrder | api/load_config.php:48-62 | The points returned in creation order are exactly the config's points. |
| Reads.PricedOn | api/load_peg_by_date.php:19-32 | The history join on a day has at most one row per point. |
| Reads.PricedOnEmpty | api/load_peg_by_date.php:19-37 | The join is empty exactly when none of the points has a history row on the day. |
| Reads.PricedOnFrom | api/load_peg_by_date.php:19-32 | Every joined row is a point's columns with that point's history row on the day. |
| Reads.PricedOnAscending | api/load_peg_by_date.php:31 | The join keeps the ascending order of point ids. |
| Reads.Plains | api/load_peg_by_date.php:51-61 | The structure rows are the points without a price, one for one. |
| Reads.LoadByDate | api/load_peg_by_date.php:5-83 | A zero id or a missing or empty date answers InvalidParams. A history answer carries the requested date and at least one row. A structure answer has at least one row. |
| Reads.PricedOnConfig | api/load_peg_by_date.php:19-37 | The join over the config's points is empty exactly when no history row on the day belongs to one of them. |
| Reads.HistoryOnJoins | api/load_peg_by_date.php:19-37 | A history row on the day for one of the config's points yields a joined row. |
| Reads.NoHistoryOnJoinsNothing | api/load_peg_by_date.php:37-45 | Without such a history row, none of the config's points joins. |
| Reads.LoadByDateSource | api/load_peg_by_date.php:37-83 | A valid request is answered from history exactly when the date has rows for the config. Otherwise it is answered with the structure exactly when the config has points, and with nothing stored otherwise. |
| Reads.LoadByDateHistoryRows | api/load_peg_by_date.php:19-32 | A history answer holds only the config's points, each joined with its row on the date. |
| Reads.JoinedOwn | api/load_peg_by_date.php:28-29 | A row joined over the config's points belongs to the config. |
| Reads.LoadByDateHistoryOrder | api/load_peg_by_date.php:31 | A history answer is by ascending point id. |
| Reads.LoadByDateStructureOrder | api/load_peg_by_date.php:60 | A structure answer is by ascending id. |
| Reads.LoadByDateStructureRows | api/load_peg_by_date.php:51-61 | A structure answer holds only the config's points, without a price. |
| Reads.LoadByDateStructureComplete | api/load_peg_by_date.php:51-74 | A structure answer lists every point of the config. |
| Reads.Entries | api/load_point_history.php:31-36 | Each history row becomes its (date, price) entry, one for one. |
| Reads.NewestByDay | api/load_point_history.php:22 | Sorting by day, newest first, is a permutation of the rows. |
| Reads.NewestByDaySorted | api/load_point_history.php:22 | The sorted rows are newest first. |
| Reads.DescendingLe | api/load_point_history.php:22 | In a newest-first list, a later row is no later by day. |
| Reads.SeriesLength | api/load_point_history.php:22-39 | The series has the smaller of the limit and the row count. |
| Reads.SeriesFromRows | api/load_point_history.php:16-39 | Every series entry is one of the rows. |
| Reads.SeriesAscending | api/load_point_history.php:38-39 | The reversed series is oldest first. |
| Reads.ReversedAscending | api/load_point_history.php:38-39 | Reversing a newest-first prefix gives an oldest-first list. |
| Reads.SeriesKeepsNewest | api/load_point_history.php:22-23 | Every row the limit leaves out is no later than every row kept. |
| Reads.PointHistory | api/load_point_history.php:5-14 | A missing or zero point id answers the error. |
| Reads.PointHistoryLength | api/load_point_history.php:5-23 | The answer has at most `days` rows (30 by default, at least 1), and all of the point's rows when it has fewer. |
| Reads.PointHistoryRows | api/load_point_history.php:16-39 | Only that point's rows are returned, oldest first. |
| Reads.PointHistoryNewest | api/load_point_history.php:16-39 | The answer holds the point's newest rows. Every row left out is no later than every row returned. |
| Reads.Latest | api/get_peg_buy_price.php:49-57 | The latest snapshot of a config is none exactly when it has none. Otherwise it is one of its snapshots, and no other has a later saved_at. |
| Reads.BuyPriceOf | api/get_peg_buy_price.php:5-78 | Each of the four answers is given exactly when its condition holds: a falsy parameter, no config of the triple, or no snapshot of that config. A price names a config with the triple, and the adjusted price and margin of its latest snapshot, a null margin reading as 0. |
| Reads.LoadConfig | api/load_config.php:7-126 | A missing id answers MissingConfigId and an unknown one ConfigNotFound. A loaded config carries its triple and name, and its margin (80 when null) under both keys. |
| Reads.LoadConfigPoints | api/load_config.php:48-70 | The loaded points are exactly the config's points. |
| Reads.LoadConfigModifiers | api/load_config.php:75-86 | The loaded modifiers are exactly the config's modifiers, by ascending id. |
| Reads.LoadConfigSales | api/load_config.php:91-104 | The loaded sales are the config's rows by ascending id, in the columns the save writes. |
| Reads.LoadPegData | api/load_peg_data.php:5-77 | A falsy parameter answers MissingTriple and an unknown triple TripleNotFound. A loaded peg carries the config's exact rows and its inventory mode, 'balanced' when null. |
| Reads.LoadPegDataIsVerbatim | api/load_peg_data.php:14-20 | The load matches the triple verbatim, while the save trims and lower-cases it. A config saved from ' SATA' is found under 'sata' and not under ' SATA'. |
| Reads.ShownSnapshot | api/load_history.php:48-68 | A snapshot of the capacity is shown by its feed row. |
| Reads.OfCapacity | api/load_history.php:38 | `WHERE capacity = ?` keeps exactly the capacity's snapshots. |
| Reads.NewestSaved | api/load_history.php:39 | `ORDER BY saved_at DESC` is a permutation of the snapshots. |
| Reads.NewestSavedSorted | api/load_history.php:39 | The sorted snapshots are newest first. |
| Reads.FeedRows | api/load_history.php:48-68 | One feed row per snapshot, in order. |
| Reads.FeedLength | api/load_history.php:25-68 | The feed has one row per snapshot. |
| Reads.FeedFrom | api/load_history.php:25-68 | Every feed row shows one of the snapshots. |
| Reads.FeedComplete | api/load_history.php:25-68 | Every snapshot is shown in the feed. |
| Reads.FeedDescending | api/load_history.php:39 | The feed is newest first. |
| Reads.CapacityFeed | api/load_history.php:12-20 | A falsy capacity answers the error. |
| Reads.CapacityFeedLength | api/load_history.php:25-68 | The feed has one row per snapshot of the capacity, over all interfaces and conditions. |
| Reads.CapacityFeedRows | api/load_history.php:48-68 | Each row shows a snapshot of the capacity, with a null config id as 0 and the margin, 80 when null, under both keys. |
| Reads.CapacityFeedComplete | api/load_history.php:25-68 | Every snapshot of the capacity is in the feed. |
| Reads.CapacityFeedDescending | api/load_history.php:39 | The capacity's feed is newest first. |
| Reads.PageRows | load_history.php:28-41 | One page row per snapshot, with a null config id kept null. |
| Reads.PageOrder | load_history.php:20 | `ORDER BY saved_at DESC, id DESC` is a permutation of the snapshots. |
| Reads.PageOrderSorted | load_history.php:20 | The page order is newest first, with the larger id first among equal times. |
| Reads.HistoryPage | load_history.php:5-25 | An empty capacity answers CapacityRequired. A negative limit or offset fails. |
| Reads.WindowLength | load_history.php:21 | `LIMIT OFFSET` leaves the rows after the offset, at most `limit` of them. |
| Reads.WindowFrom | load_history.php:21 | A window holds only rows of the ordered snapshots. |
| Reads.WindowOrdered | load_history.php:20-21 | A window keeps the page order. |
| Reads.WindowAll | load_history.php:21 | A window from the start at least as long as the rows holds all of them. |
| Reads.HistoryPageLength | load_history.php:5-25 | A page holds at most `limit` rows, those left after skipping `offset`. |
| Reads.HistoryPageRows | load_history.php:16-41 | Every row of a page is a snapshot of the capacity. |
| Reads.HistoryPageOrder | load_history.php:20 | A page is newest first, with the larger id first among equal times. |
| Reads.WindowsCompose | load_history.php:21 | Consecutive windows fit together. |
| Reads.HistoryPagesCompose | load_history.php:5-41 | The page of `a` rows at `offset`, followed by the page of `b` rows after it, is the page of `a + b` rows at `offset`. |
| Reads.HistoryPageComplete | load_history.php:5-41 | A first page at least as long as the capacity's snapshots holds all of them. |
| ComboAverages.PointById | api/load_avg_peg_by_combo.php:30 | The point join finds the point with the id, or none exactly when no point has it. |
| ComboAverages.GroupRows | api/load_avg_peg_by_combo.php:23-41 | One grouped row per group, carrying the mean price of the joined rows in it. |
| ComboAverages.LoadAverages | api/load_avg_peg_by_combo.php:5-14 | The answer is InvalidParams exactly when the capacity is missing or falsy or `days` is not positive. |
| ComboAverages.Collect | api/load_avg_peg_by_combo.php:48-61 | The loop builds exactly the dictionary of per-key lists ComboAverages.ByKey defines. |
| ComboAverages.EntriesForAbsent | api/load_avg_peg_by_combo.php:53-55 | A key with no row has no entries. |
| ComboAverages.KeySetStep | api/load_avg_peg_by_combo.php:51-55 | One more row adds its key to the key set. |
| ComboAverages.ByKeyStep | api/load_avg_peg_by_combo.php:50-61 | One more row appends its entry to its key's list, creating the list if needed, and changes no other list. |
| ComboAverages.EntriesFrom | api/load_avg_peg_by_combo.php:50-61 | Every entry under a key comes from a row with that key. |
| ComboAverages.EntriesComplete | api/load_avg_peg_by_combo.php:50-61 | Every row's entry is in its key's list. |
| ComboAverages.EntriesAll | api/load_avg_peg_by_combo.php:57-60 | A property of the rows' days under a key holds of the dates of its entries. |
| ComboAverages.EntriesAscending | api/load_avg_peg_by_combo.php:39-61 | Rows ordered by day give every list ascending dates. |
| ComboAverages.EntriesDistinctDates | api/load_avg_peg_by_combo.php:50-61 | Rows of one key on different days give a list with distinct dates. |
| ComboAverages.CellsEmpty | api/load_avg_peg_by_combo.php:35-38 | There are no groups exactly when there are no joined rows. |
| ComboAverages.CellsExact | api/load_avg_peg_by_combo.php:35-38 | A group is listed exactly when some joined row falls in it. |
| ComboAverages.CellsDistinct | api/load_avg_peg_by_combo.php:35-38 | Each group is listed once. |
| ComboAverages.CountWitness | api/load_avg_peg_by_combo.php:28 | A non-empty group has a joined row in it. |
| ComboAverages.CountPositive | api/load_avg_peg_by_combo.php:28 | Every joined row's group is non-empty. |
| ComboAverages.GroupsFacts | api/load_avg_peg_by_combo.php:23-41 | The grouped rows are by ascending day and each group is listed once. A group is listed exactly when some joined row falls in it, and it carries their mean. |
| ComboAverages.JoinedFrom | api/load_avg_peg_by_combo.php:29-34 | Every joined row carries the combo of a config with the capacity and comes from a history row. |
| ComboAverages.JoinedComplete | api/load_avg_peg_by_combo.php:29-34 | Every history row that passes the joins and the filter yields a joined row. |
| ComboAverages.JoinedEmpty | api/load_avg_peg_by_combo.php:29-34 | The join is empty exactly when no history row passes. |
| ComboAverages.EmptyWithoutMatches | api/load_avg_peg_by_combo.php:48-66 | The dictionary is empty exactly when no history row joins, and this is not an error. |
| ComboAverages.AveragesAscending | api/load_avg_peg_by_combo.php:39-61 | Each combo's list is ascending by date. |
| ComboAverages.AveragesOnePerDate | api/load_avg_peg_by_combo.php:35-61 | When keys tell combos apart, each list holds one entry per date. |
| ComboAverages.GroupCombo | api/load_avg_peg_by_combo.php:26-31 | A group's combo is that of a stored config. |
| ComboAverages.SameKeyOtherDay | api/load_avg_peg_by_combo.php:35-51 | When keys tell combos apart, two groups under one key are on different days. |
| ComboAverages.AverageIsMean | api/load_avg_peg_by_combo.php:23-61 | Every entry under a key is the mean price of the joined rows of one day and combo with that key, and there is at least one such row. |
| ComboAverages.AveragesComplete | api/load_avg_peg_by_combo.php:23-61 | Every history row that joins is counted: its key is present, and its list holds the mean of its day and combo. |
| Client.Entity | js/app.js:684 | A plain character stays itself. Each of `& < > " ' /` becomes an entity that starts with `&` and ends with `;`. |
| Client.EscapeHtml | js/app.js:682-685 | A missing or empty value gives ''. Otherwise the value is escaped character by character. |
| Client.EscapedHasNoMarkup | js/app.js:684 | Escaped text holds no markup character. |
| Client.EscapeKeepsPlainText | js/app.js:684 | Text without a special character is left as it is. |
| Client.EntityPrefix | js/app.js:684 | A recognised entity prefix is the full entity of a special character. |
| Client.EntityPrefixOf | js/app.js:684 | An escaped character is read back as itself. |
| Client.UnescapeEntity | js/app.js:684 | Decoding an escaped character gives it back, followed by the rest decoded. |
| Client.EscapeRoundTrip | js/app.js:682-685 | Decoding the escaped text gives the text back: nothing is lost or altered. |
| Client.Capitalize | js/app.js:686 | A missing or empty value gives ''. Otherwise only the first character is upper-cased, and the length and the rest are kept. |
| Client.CapitalizeKeepsLetters | js/app.js:686 | Capitalizing changes nothing but the case of the first letter. |
| Client.FindFirstMissingCombo | js/app.js:1595-1620 | The answer is null exactly when all six combos of the two lists are present. Otherwise it is the first absent combo in nested-loop order. |
| Client.FindConfigIdFirst | js/app.js:1674-1683 | The answer is null exactly when no row matches case-insensitively. Otherwise it is the config of the first matching row. |
| Client.GetExistingConfigMap | js/app.js:1333-1344 | The map's keys are exactly the feed's combo keys, each mapped to the config of its last row. |
| Client.ExistingStep | js/app.js:1599-1603 | One more row adds its key to the set of existing combos. |
| Client.LastConfigIdIs | js/app.js:1337-1341 | The last row with a key gives its config. |
| Client.LookupsAgree | js/app.js:1333-1344 | The first-match lookup and the last-row map give the same id when each key has one config. |
| Client.LastConfigIdFrom | js/app.js:1337-1341 | The last config of a key is the config of some row with that key. |
| Client.SlotOf | js/app.js:1557 | The slot of a date holds that date, or there is none exactly when no slot has it. |
| Client.DailyHighest | js/app.js:1551-1560 | The loop builds the per-date object that Client.HighestByDay defines. |
| Client.KeepDates | js/app.js:1557-1559 | One row keeps the existing slots and dates, adds at most one slot at the end, and leaves its date with a slot. |
| Client.HighestEntries | js/app.js:1551-1560 | The dates are distinct, every entry is one of the rows, and every row's date has an entry. |
| Client.KeepDistinct | js/app.js:1557-1559 | One row keeps the dates distinct. |
| Client.KeepFrom | js/app.js:1557-1559 | Every entry after a row was there before, or is that row. |
| Client.HighestIsMax | js/app.js:1551-1560 | With non-negative prices, each date holds the highest price of its rows. |
| Client.KeepHolds | js/app.js:1557-1559 | After a row, its date's slot holds at least the row's price. |
| Client.DaysSelected | js/app.js:1523 | The range is never 0, and a non-zero selection is used as it is. |
| Client.AscendingSuffix | js/app.js:1568 | A suffix of an ascending list is ascending. |
| Client.SortedDistinctDates | js/app.js:1563-1565 | Sorting the per-date entries is a permutation that orders the dates strictly. |
| Client.PermutedDistinctDates | js/app.js:1563-1565 | Reordering a list with distinct dates keeps them distinct. |
| Client.DisplayAscending | js/app.js:1563-1568 | The chart's dates strictly increase. |
| Client.DisplayNewest | js/app.js:1563-1568 | For a positive range the chart holds the newest `days` dates, each taken from the per-date object. Every date left out is older than all shown. |
| Client.FromEntriesLast | js/app.js:1912 | The map's keys are the rows' days, and each holds the value of its last row. |
| Client.NormalizeDailySeries | js/app.js:1911-1923 | One value per day key, each the value carried forward up to that day. |
| Client.CarriedNone | js/app.js:1916-1920 | A day is null exactly when no day up to it has a value. |
| Client.CarriedIsLatest | js/app.js:1918 | A day holds the value of the most recent day at or before it that has one. |
| Client.CarriedFrom | js/app.js:1918 | A day's value is the value of some day at or before it. |
| Client.PricedEntries | js/app.js:2216-2219 | Each history-answer row carries its price. |
| Client.PlainEntries | js/app.js:2216-2219 | Each structure-answer row carries no price. |
| Client.Answered | js/app.js:2216 | An error answer or an empty one gives no rows. |
| Client.MergeForDate | js/app.js:2215-2235 | One merged point per live point, in order, each as Client.Merged defines it. |
| Client.HistoryMapFrom | js/app.js:2217-2219 | Each id in the map comes from a row with that id and that row's price. |
| Client.HistoryMapHas | js/app.js:2217-2219 | Every row's id is in the map. |
| Client.HistoryMapEmpty | js/app.js:2239 | The map is empty exactly when the answer has no rows. |
| Client.PricedOnHas | js/app.js:2216-2219 | A point with a history row on the day has a row in the join. |
| Client.OwnPoints | js/app.js:2208 | The config's ordered points hold exactly the ids it owns. |
| Client.JoinedPrice | js/app.js:2224-2233 | A map row built from the join is the price of a listed point on the day. |
| Client.JoinedHas | js/app.js:2224-2233 | A listed point with a history row on the day has a row in the map. |
| Client.MergedFromHistory | js/app.js:2223-2235 | Over a history answer, a live point keeps its fields. Its price is blank exactly when the config has no history row for it on the day, and otherwise it is that row's price. |
| Client.MergedFromStructure | js/app.js:2223-2235 | Over a structure answer, a live point the config owns gets `undefined` and any other point a blank. |
| Client.MergedWithoutRows | js/app.js:2223-2235 | An error answer or an empty one blanks every price. |
| Client.LoadPegForDate | js/app.js:2188-2246 | Nothing is done without a capacity or a date. "No configuration" is shown exactly when the combo has no config id, or a zero one. A draft merges the live points with the date's answer for that config, so the Client.Merged* lemmas apply to it. It has one point per editor point, carrying that point's id, caption, channel and qty, and it is in editing mode exactly when the answer had rows. |
| Client.LivePoints | js/app.js:2174-2183 | One live row per editor point, in order, with a null id and qty read as 0. |
| Editor.WholePart | js/app.js:1055 | `parseInt` of a number's text is its whole part, towards zero. |
| Editor.CoercedValues | js/app.js:1042-1058 | Only the edited field changes. An empty price is 0. An empty weight keeps the old weight, or 1 when there was none, and a typed weight is at least 0. A qty is the non-negative whole part, and 0 when empty or below 1. |
| Editor.EditNumber | js/app.js:1038-1058 | Without a point at the index the list is unchanged, as the `if (!points[idx]) return` guard leaves it. Otherwise that row becomes its coerced edit, whose values Editor.CoercedValues states, and every other row stays. |
| Editor.EditText | js/app.js:1038-1058 | Without a point at the index the list is unchanged. Otherwise that row's caption, channel or url becomes the typed text, its other fields stay, and every other row stays. |
| Editor.SpliceAt | js/app.js:1080 | The index `splice` removes at is inside the list. |
| Editor.SpliceRemovesOne | js/app.js:1073-1083 | `splice(idx, 1)` on a reachable index, negative ones counting from the end, removes exactly that element and keeps the rest in order. At or past the end nothing changes. Before the front the first element goes. |
| Editor.AddPoint | js/app.js:1143-1159 | The add button appends one point and keeps the others. |
| Editor.AddModifier | js/app.js:1161-1166 | The add button appends one modifier and keeps the others. |
| Editor.EditAmount | js/app.js:1085-1099 | Without a modifier at the index the list is unchanged. Otherwise that modifier's amount becomes the typed number, or 0 when empty, its caption stays, and every other modifier stays. |
| Editor.EditModifierCaption | js/app.js:1085-1099 | Without a modifier at the index the list is unchanged. Otherwise that modifier's caption becomes the typed text, its amount stays, and every other modifier stays. |
| Editor.PegPoints | js/app.js:100-102 | The block's points as the peg computation reads them, one for one. |
| Editor.EditsKeepWeights | js/app.js:1031-1159 | No edit, deletion or addition introduces a negative weight. |
| Editor.SuggestedWithinPrices | js/app.js:1031-1159 | While no weight is negative, the block's suggested peg stays within its prices. |
| Editor.PegBlock.constructor | js/app.js:224-230 | A new block has no points and no modifiers. |
| Editor.PegBlock.SetNumber | js/app.js:1031-1058 | The points become the coerced number edit, and the modifiers stay. |
| Editor.PegBlock.SetText | js/app.js:1031-1058 | The points become the text edit, and the modifiers stay. |
| Editor.PegBlock.DeleteRow | js/app.js:1073-1083 | The points become the spliced list, and the modifiers stay. |
| Editor.PegBlock.AddRow | js/app.js:1143-1159 | One point is appended, priced like the first row or at 100. The modifiers stay. |
| Editor.PegBlock.SetAmount | js/app.js:1085-1099 | The modifiers become the amount edit, and the points stay. |
| Editor.PegBlock.SetModifierCaption | js/app.js:1085-1099 | The modifiers become the label edit, and the points stay. |
| Editor.PegBlock.DeleteModifier | js/app.js:1101-1110 | The modifiers become the spliced list, and the points stay. |
| Editor.PegBlock.NewModifier | js/app.js:1161-1166 | One modifier is appended, and the points stay. |
| Pricing.Prices | js/helpers.js:43 | One price per point, each `Number(price) || 0`. |
| Pricing.WeightsPercent | js/helpers.js:45-48 | One share per point. |
| Pricing.HelperLabels | js/helpers.js:42 | One label per point. |
| Pricing.NumberedLabels | js/app.js:111 | One label per point. |
| Pricing.Accumulate | js/helpers.js:21-37 | The three accumulator loops yield the weighted sum, the total weight and the plain sum of the prices. |
| Pricing.ComputePeg | js/helpers.js:10-51 | An empty list gives the all-zero snapshot. Otherwise the suggested peg is the weighted mean, the raw average is the plain mean, and the prices, shares and labels are as defined. |
| Pricing.ComputePegFromPoints | js/app.js:85-119 | The same snapshot as `computePeg`, with the early-exit weight scan, except that unlabeled points are numbered. |
| Pricing.EqualWeightSums | js/helpers.js:25-37 | Under equal weights the total weight is the count and the weighted sum is the plain sum. |
| Pricing.SuggestedIsRawAvgWithoutWeights | js/helpers.js:25-40 | With no positive weight the suggested peg equals the raw average. |
| Pricing.ExcessSign | js/helpers.js:34 | A non-negative weight keeps the sign of a price's distance from a level. |
| Pricing.JsExcessIdentity | js/helpers.js:30-37 | The browser's weighted sum less `c` times its total weight is the sum of the per-point excesses. |
| Pricing.JsExcessSign | js/helpers.js:30-37 | With non-negative weights, prices all above (or all below) `c` give a non-negative (or non-positive) excess. |
| Pricing.SumBounds | js/helpers.js:30-37 | With non-negative weights and prices in `[lo, hi]`, the weighted sum lies between `lo` and `hi` times the total weight. |
| Pricing.TotalNonNegative | js/helpers.js:35 | Non-negative weights give a non-negative total. |
| Pricing.PositiveWeightGivesPositiveTotal | js/helpers.js:25-35 | One positive weight among non-negative ones makes the total positive. |
| Pricing.MeanBounds | js/helpers.js:39 | A quotient by a positive total keeps the numerator's bounds. |
| Pricing.SuggestedWithinPriceRange | js/helpers.js:10-40 | With no negative weight, a non-empty list's suggested peg lies between its lowest and highest price. |
| Pricing.PercentPrefixSum | js/helpers.js:45-48 | The shares of a prefix add up to that prefix's weight as a percentage of the total. |
| Pricing.DivideSum | js/helpers.js:47 | Percent shares of one total add the way their weights add. |
| Pricing.WeightsPercentSumTo100 | js/helpers.js:45-48 | When the total weight is not 0, the weight shares add up to 100. |
| Pricing.WeightedScenario | js/helpers.js:10-51 | Prices 10 and 20 with weights 1 and 3 give a peg of 17.5, a mean of 15 and shares of 25 and 75 percent. |
| Pricing.PhpWeight | api/save_peg.php:207-208 | A server weight is always positive. It is the point's own positive weight, or 1 in its place. |
| Pricing.AggregatePrices | api/save_peg.php:202-221 | The save loops give the base price, its weighted mean with per-point fallback, and the adjusted price, which is the base plus the modifier total. |
| Pricing.AllPositiveSums | api/save_peg.php:205-212 | When every weight is positive the server's sums are the browser's sums. |
| Pricing.NonePositiveSums | api/save_peg.php:205-212 | When no weight is positive the server's sums are the browser's equal-weight sums. |
| Pricing.BrowserAndServerAgree | api/save_peg.php:202-214 | The browser's suggested peg equals the stored base price when all weights are positive or none is. |
| Pricing.BrowserAndServerDisagreeOnMixedWeights | api/save_peg.php:207-208 | With weights 1 and 0 the browser's peg is 10 and the server's base price is 15. |
| Pricing.BasePriceWithinPriceRange | API/save_peg.php:170-183 | A non-empty list's base price lies between its lowest and highest price. |
| Pricing.PhpExcessIdentity | API/save_peg.php:173-181 | The server's weighted sum less `c` times its total weight is the sum of the per-point excesses. |
| Pricing.PhpExcessSign | API/save_peg.php:173-181 | Prices all above (or all below) `c` give a non-negative (or non-positive) server excess. |
| Pricing.PhpSumBounds | API/save_peg.php:173-181 | With prices in `[lo, hi]` the server's weighted sum lies between `lo` and `hi` times its total weight. |
| Pricing.PhpTotalPositive | API/save_peg.php:173-181 | A non-empty list has a positive server total weight. |
| Pricing.BandPrices | js/helpers.js:59-66 | The low price is the adjusted price times the margin percentage, and the high is 5 percent above the low. For a non-negative price and a margin of at most 100, the low lies between 0 and the price, and the high is at least the low. |
| Pricing.SummaryOf | js/app.js:649-677 | The adjusted price is the base plus the modifiers. The band uses the margin, and a missing margin means 80 percent. Without positive weights the base equals the raw average. |
| Pricing.StatusOf | js/app.js:470-485 | High exactly when the peg is above the raw average, and low exactly when it is below. Without positive weights it is always Avg. |
| Sheet.NormalizeCondition | js/tableEditor.js:4-12 | A recognised condition is always one of the three canonical names. |
| Sheet.TrimPlain | js/tableEditor.js:5 | Text without surrounding white space is its own trim. |
| Sheet.LowerPlain | js/tableEditor.js:5 | Text without an upper-case letter is its own lower case. |
| Sheet.CleanedPlain | js/tableEditor.js:5 | Lower-case letters are cleaned to themselves. |
| Sheet.NormalizeRecertified | js/tableEditor.js:7 | 'recertified' is recertified. |
| Sheet.RecertPrefix | js/tableEditor.js:7 | Anything that starts with 'recert' once cleaned is recertified. |
| Sheet.CleanRecertified | js/tableEditor.js:5-7 | 'recertified' cleans to itself and starts with 'recert'. |
| Sheet.NormalizeNew | js/tableEditor.js:8 | 'new' is new. |
| Sheet.NormalizeUsed | js/tableEditor.js:9 | 'used' is used. |
| Sheet.NormalizeCanonical | js/tableEditor.js:4-12 | Each canonical name normalises to itself. |
| Sheet.NormalizeIdempotent | js/tableEditor.js:4-12 | Normalising a recognised condition twice is normalising it once. |
| Sheet.NormalizeOrder | js/tableEditor.js:7-11 | The tests apply in order. Text containing 'recert' is recertified even when it also contains 'used'. Only the exact text 'new' is new. The result is null exactly when none of 'fr', 'new' or 'cr' matches and neither 'recert' nor 'used' occurs. |
| Sheet.WithCell | js/tableEditor.js:55-58 | Writing a cell sets that column and keeps every other one. A short row is padded with nulls up to the column. |
| Sheet.RowAfterCells | js/tableEditor.js:19-58 | A row without a price is left as it is. A priced row changes only in columns 7 to 10, which receive the four prices to two decimals in order. |
| Sheet.PricesFromSnapshot | js/tableEditor.js:38-52 | A row gets prices exactly when the lookup answers with a price. The low unit price is the adjusted price times the margin, the high is 5 percent more, and the totals are these times the qty. A margin of 0 falls back to 80 percent. |
| Sheet.RequestConditions | js/tableEditor.js:20-35 | A request is made only for a row with capacity, interface and condition cells, a positive qty and a recognised condition. It sends the lower-cased interface and the normalised condition. |
| Sheet.Doubled | js/tableEditor.js:90 | Doubling quotes never shortens the text. |
| Sheet.CsvCells | js/tableEditor.js:87-92 | One CSV field per cell. |
| Sheet.ExportCsv | js/tableEditor.js:83-94 | The `csv +=` loop builds the header line and then one line per row. |
| Sheet.CsvLinesStep | js/tableEditor.js:86-94 | Each pass of the loop appends exactly the next row's line. |
| Sheet.DoubledRoundTrip | js/tableEditor.js:90 | Undoubling the doubled text gives the cell's text back. |
| Sheet.DoubledQuotesPaired | js/tableEditor.js:90-91 | Quotes in a doubled field come in pairs, as section 2, rule 7 of RFC 4180 requires. |
| Sheet.CsvCellRoundTrip | js/tableEditor.js:89-91 | A cell that is not null is quoted, and its inside reads back as the cell's text. |
| Sheet.CsvLinesEnd | js/tableEditor.js:84-94 | Every row's line ends with a line break, and no rows give no lines. |
| Sheet.PegSheet.constructor | js/app.js:1965 | The sheet holds the given rows. |
| Sheet.PegSheet.GenerateBuyPrices | js/tableEditor.js:13-66 | Every row becomes its row after the lookup, and the number of rows is kept. |
| Sheet.PegSheet.Export | js/tableEditor.js:74-94 | The export is the CSV text of the current rows. |
| Text.Lower | api/save_peg.php:30-31 | `strtolower` maps each character on its own and keeps the length. |
| Text.LowerIdempotent | api/load_avg_peg_by_combo.php:51 | Lower-casing twice is lower-casing once. |
| Text.TrimStart | api/save_peg.php:29-31 | What is left does not start with white space. |
| Text.TrimStartSuffix | api/save_peg.php:29-31 | The left trim keeps a suffix and drops only white space. |
| Text.TrimEnd | api/save_peg.php:29-31 | What is left does not end with white space. |
| Text.TrimEndPrefix | api/save_peg.php:29-31 | The right trim keeps a prefix and drops only white space. |
| Text.Trim | api/save_capacity.php:6 | The trimmed text neither starts nor ends with white space. |
| Text.TrimCutsOnlySpaces | api/save_capacity.php:6 | The trimmed text is an infix of the input, and all that is cut from either side is white space. |
| Text.ContainsAt | js/tableEditor.js:7-9 | `includes` holds once the text occurs at some position. |
| Text.NatToString | js/app.js:111 | A number prints as one or more decimal digits. |
| Lex.Reflexive | js/app.js:1565 | Every string sorts at or before itself. |
| Lex.Antisymmetric | js/app.js:1565 | Two strings that each sort at or before the other are equal. |
| Lex.Transitive | js/app.js:1565 | String order is transitive. |
| Lex.Total | js/app.js:1857 | Any two strings compare one way or the other. |
| Lex.LeConcat | js/app.js:1565 | When the first parts have equal length they decide the order, and the rest decides when they are equal. |
| Days.TrailingNewlinePassesPattern | api/save_peg.php:39 | The date pattern as written accepts "2024-01-05\n", which is not a day. |
| Days.DayPatternAnchored | api/save_peg.php:39-43 | A day is exactly ten characters, none of them a line break. |
| Days.Pow10 | api/save_peg.php:44 | A power of ten is at least 1. |
| Days.Value | api/save_peg.php:44 | A string of n digits denotes a number below 10 to the n. |
| Days.DigitTimesPow | api/save_peg.php:44 | A leading digit and a smaller rest stay below the next power. |
| Days.PowBound | api/save_peg.php:44 | A smaller leading digit with rests below the power gives a smaller number. |
| Days.DigitsLe | api/save_peg.php:44 | For digit strings of equal length, string order is numeric order. |
| Days.DigitsLt | api/save_peg.php:44 | For digit strings of equal length, strict string order is strict numeric order. |
| Days.LexOrderIsChronological | api/save_peg.php:44-48 | Comparing two days as strings, as the future-date guard does, agrees with comparing them by year, month and day. |
| Days.DigitsEqual | api/save_peg.php:44 | Digit strings of equal length are equal exactly when their values are. |
| Sorting.KeyTotal | api/load_history.php:39 | Any two sort keys compare one way or the other. |
| Sorting.KeyTransitive | api/load_history.php:39 | The order on sort keys is transitive. |
| Sorting.InsertSorted | api/load_config.php:61 | Inserting into a sorted list keeps it sorted and adds exactly that row. |
| Sorting.HeadBelowInsert | api/load_config.php:61 | Inserting into the tail of a sorted list keeps its head first. |
| Sorting.SortBySorted | api/load_config.php:61 | Sorting by a key gives the same rows, in non-decreasing order. |
| Sorting.Reverse | api/load_history.php:39 | Reversal mirrors the positions. |
| Sorting.ReverseMultiset | api/load_history.php:39 | Reversal keeps the rows. |
| Sorting.SliceFrom | api/load_point_history.php:22-23 | A page of a permutation holds only the original rows. |
| Sorting.ReversedPrefixFrom | api/load_point_history.php:22-23 | The reversed first rows of a permutation are original rows. |
| Sorting.PermutedIndex | api/load_history.php:39 | Every row sits somewhere in a permutation. |
| Sorting.SliceSortedDesc | api/load_point_history.php:22-23 | A page of a descending list is descending. |
| Sorting.SortDescBySorted | api/load_history.php:39 | The descending sort gives the same rows, in non-increasing order. |
| Sorting.DistinctCount | api/load_history.php:39 | A list without repeats holds each row at most once. |
| Sorting.PermutationDistinct | api/load_history.php:39 | A permutation of a list without repeats has none. |

## Left out

- HTTP and JSON plumbing is not modelled: body reading, `json_decode`, status codes, `echo` and `error_log`. Requests arrive as datatypes with optional fields, and responses leave as datatypes.
- `db.php` and the DDL are not part of this model. The model assumes these keys for the tables of `Schema.Tables`, which the `api/` endpoints use:
  - history unique on (point, day);
  - a history foreign key to points;
  - snapshots unique on (config, `saved_at`);
  - the configs triple unique.

  The older schema of `Legacy.LegacyTables`, used by API/save_peg.php, has no (point, day) key on its price history. There, rows on one day with different prices accumulate, as LegacyFacts.DistinctPricesAccumulate shows.
- Schema.Tables: one shared `nextId` counter serves every table, and a rollback restores it. MySQL keeps one auto-increment counter per table and leaves gaps after a rollback. So the model's ids are fresh and increasing, as MySQL's are, but not the exact numbers MySQL hands out.
- Database failures enter only where the code handles them, as a rollback to the unchanged tables. Isolation, concurrency and races are not modelled.
- Clock reads (`date('Y-m-d')`, `CURDATE()`, `NOW()`, `new Date()`) are parameters: `today`, `now`, and the lookback cutoff of the per-combo averages. Calendar arithmetic such as `CURDATE() - INTERVAL n DAY` is therefore left to the caller.
- Prices are exact reals. `toFixed(2)`, PHP's `round(…, 2)` and `(float)` casts are left out, and so are NaN and infinities. In the browser pricing a numeric field that is absent or not a number is `None`. Where an endpoint applies PHP's `(int)` cast to a parameter, the cast is taken to have happened before the model's input: `days` at api/load_avg_peg_by_combo.php:6 and api/load_point_history.php:6, and `limit` and `offset` in load_history.php. Text such as "abc" therefore arrives as 0 and is answered as 0 is, not as an absent value.
- Writes.SavePeg: checks the date with the anchored day `Days.IsDay`, which is the corrected pattern of the finding below. The source's pattern at api/save_peg.php:39 also accepts "2024-01-05\n". When its day is before today, that date then passes the future-date check and goes on to the writes. The model refuses it as InvalidDate instead.
- Store.PegStore.SavePeg: uses the same anchored gate as Writes.SavePeg, so it too refuses "2024-01-05\n", which the source accepts.
- Writes.UpsertHistory: the acceptance of the `day_date` DATE column is modelled as the ten-character digit shape `Days.IsDay`. MySQL converts dates itself, and the model differs in two ways: MySQL stores "2024-1-5" as 2024-01-05, where the model fails the write; and under strict mode MySQL refuses "2024-13-45", where the model records it, because the shape does not check month or day ranges.
- DatedHistory.SaveHistory: api/save_peg_history.php:10-51 does not check `date` at all. Whether its inserts succeed is decided by MySQL's DATE conversion, which the model replaces with `Days.IsDay`, with the same two differences as Writes.UpsertHistory: "2024-1-5" fails in the model and "2024-13-45" is recorded.
- DatedHistory.RecordSucceeds: "the date is a date" means `Days.IsDay`, not MySQL's DATE acceptance, with the two differences listed for Writes.UpsertHistory.
- CapacityList.SaveCapacity: has no branch for a failing INSERT (api/save_capacity.php:30-31). With the label absent, only a database error can make the INSERT fail, and database errors are not modelled.
- Client.Capitalize: upper-cases ASCII letters only. JavaScript's `toUpperCase` at js/app.js:686 follows Unicode, and it can change the length, as when "ß" becomes "SS". So the kept length holds of the model, not of the source, for such text.
- Sheet.Conversions: JavaScript's `Number(text)`, `String(number)` and `toFixed` on sheet cells are parameters, not definitions.
- Editor.WholePart: models `parseInt` on a number's decimal text only. Exponent notation, such as `1e21`, is not spelled out.
- Text.Lower: maps ASCII letters only. Unicode case mapping in `toLowerCase` and MySQL's collations are left out. String comparison (`localeCompare`, `sort()`, MySQL's ordering of `Y-m-d` text) is the code-point order `Lex.Le`.
- `ORDER BY created_at` and the auto-increment ids are modelled as table order, and ids are unbounded integers.
- Reads.LoadByDate: the `date` parameter is compared with `day_date` as text. MySQL converts the parameter to a DATE before comparing, so for `date=2024-1-5` the source answers from the 2024-01-05 history rows, where the model finds no row of that day and answers from the structure or with nothing stored. Reads.PricedOn makes the same text comparison.
- Schema.Valid: has no conjunct saying that point, config and snapshot ids are distinct. Every id is drawn from the shared counter, and `IdsBelow` keeps every stored id below it, so an insert never repeats a stored id; distinctness itself is not stated or proved, and the lookups by id take the first match.
- SaveFacts.SavePointsRows: gives the appended rows only their config and a fresh id. Their values are stated entry by entry in SaveFacts.SavePointsInsertedRow.
- SaveFacts.SavePegNewPoints: gives the appended rows only their config and a fresh id. Their values and their history on the saved day are stated entry by entry in SaveFacts.SavePegInsertedPoint.
- SaveFacts.SavePointsRecordsHistory: covers the entries that update a stored point. The history of inserted points is stated in SaveFacts.SavePointsRecordsInsert.
- SaveFacts.SavePegRecordsHistory: covers the entries that update a stored point. The history of inserted points is stated in SaveFacts.SavePegInsertedPoint, so a config's first save, where every entry inserts, is covered there.
- Reads.BuyPriceOf: when two snapshots of one config tie on the greatest `saved_at`, the model returns the first in table order, whereas MySQL may return either.
- Reads.HistoryPage: a negative `limit` or `offset` is answered as `PageFailed`, standing for the SQL error. MySQL's exact message is not modelled.
- Client.HighestIsMax: proved only for non-negative prices. A stored 0 is replaced by any later row, a negative one included, because the source tests the stored price for falsiness.
- ComboAverages.AveragesOnePerDate: holds only when no two combos of the store share a lower-cased key. SQL groups by the stored interface and condition, while the dictionary key lower-cases them.
- Client.NormalizeDailySeries: the days from `startDate` to `endDate` arrive as a list of day keys. The calendar enumeration with `Date` objects and `normalizeDate`'s `Date` fallback are left out.
- The state of the browser application is left out: the `pegDataState` dictionary per capacity, `getCurrentPegBlock`'s create-on-demand and the history cache. The editor models one block, `Editor.PegBlock`.
- The table handlers update point objects in place, and other references to the same objects see the change. The model replaces the block's sequences instead, so aliasing is not captured.
- The sales-table input handler (js/app.js:1112-1139) is left out. It fills a sparse array by column.
- `generateSimpleHistory` uses `Math.random` and `sin`, so it is left out. `capacityToNumber` uses `parseFloat` for the sidebar order, so it is left out too.
- `formatMoney`, `defaultSalesData` and `todayISO` are left out.
- The fetch per row in `generateBuyPricesFromDB` is replaced by the pure lookup `Reads.BuyPriceOf` over the tables. A network or JSON error leaves the row unchanged, like a lookup with no price.
- Rendering, modals, Chart.js, Handsontable setup and the sidebar handlers are left out, because none of them has behaviour to state. The same goes for `js/api.js`, `js/charts.js`, `js/events.js` and `api/load_capacities.php`.

## Findings

| source | as written | input that shows it | evidently intended | confidence | as-written member | corrected member |
|---|---|---|---|---|---|---|
| api/save_peg.php:39 | `preg_match('/^\d{4}-\d{2}-\d{2}$/', …)` without the `D` modifier lets PCRE's `$` match before a final newline | the date `"2024-01-05\n"` | only a ten-character `YYYY-MM-DD` day is accepted | not executed | Days.TrailingNewlinePassesPattern | Days.DayPatternAnchored |
