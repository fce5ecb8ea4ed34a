# Fallout 76 legendary-mods manager — a Dafny model of its core

The application is a browser checklist of Fallout 76 legendary modules. It
fetches a catalog of modules. Each entry is identified by the text
`${ruName}-${stars}` and carries a learned mark. The user can add, edit and
delete custom entries and toggle learned marks. The list is kept in local
storage, and the user can export it to a backup file and import it back.
The table can be searched, filtered and sorted. Its column visibility and
widths are configurable and stored too. The interface text comes from
per-language translation tables.

This project models that core and proves what it promises:

- `Json` is the parsed JSON the application reads, with the JavaScript
  coercions it applies: property access, truthiness, `typeof === 'object'`
  and `String()`.
- `OrderedMaps` is a JavaScript `Map`: its keys in insertion order and a
  value per key. `set` keeps the position of a key that is already there.
- `Records` holds the module entry, its key text, and the proof that the
  key text identifies an entry as long as the star count is not negative.
- `Columns` is the column configuration of `config.js` and the defaults
  derived from it.
- `Utils` covers `utils.js`:
  - `getStars` and `formatEffectText`;
  - `loadModules`, the reconciliation of the catalog with the saved list;
  - `saveModules`;
  - `loadColumnSettings`, the validation and clamping of saved column
    settings.
- `Hooks` covers `hooks.js`:
  - `TableState`, the table-state handlers, as a class whose methods update
    its settings and sort configuration;
  - `ModalState`, the modal state, as a class;
  - `ModuleList`, the module-management handlers, as a class over the
    module list, together with the pure functions that specify each
    handler.
- `App` covers the import handler of `app.jsx`. It merges an imported file
  with the catalog and applies or resets the column settings. It also holds
  the export/import round trip and the idempotence of importing.
- `Lists` holds `Array.prototype.filter`, and `Array.prototype.sort` as a
  stable insertion sort, with proofs of sortedness and permutation.
- `View` covers the `processedModules` and `stats` memos of `app.jsx`:
  search, filter, star selection and the column-typed comparator.
- `Language` covers `LanguageContext.jsx`:
  - the initial language;
  - `t`, with its `{{name}}` placeholder substitution;
  - `switchLanguage`.
- `Text` holds the string operations these need: `includes`, `indexOf`,
  `replace` with a string pattern and with a global pattern, `repeat`, and
  the decimal rendering of integers.

`localStorage`, `fetch`, `FileReader`, `JSON.parse` and `window.confirm`
are not modelled as effects. Each operation receives their outcome as a
parameter:

- `Utils.Stored` is what reading and parsing a storage item produced.
- `App.FileRead` is what choosing, reading and parsing a file produced.
- A `confirmed` flag is the answer to the confirmation dialog.
- The language stored in local storage is a constructor argument.

## Model

| member | source | states |
|---|---|---|
| Text.IndexOf | utils.js:9-10 | `indexOf`: -1 exactly when the pattern does not occur, otherwise an occurrence with none before it |
| Text.ReplaceFirst | utils.js:10 | `replace` with a string pattern: unchanged when the pattern is absent, otherwise the first occurrence replaced and everything else kept |
| Text.ReplaceAllIsJoin | LanguageContext.jsx:78-79 | a global replace equals cutting the text at the pattern and joining the pieces with the replacement |
| Text.SplitJoin | LanguageContext.jsx:78-79 | the pieces cut at the pattern, joined with the pattern, give the text back |
| Text.SplitPiecesFree | LanguageContext.jsx:78-79 | no piece holds the pattern, so every occurrence was cut |
| Text.ReplaceAllWhole | LanguageContext.jsx:78-79 | a text that is exactly the pattern becomes exactly the replacement |
| Text.ReplaceAllAbsent | LanguageContext.jsx:78-79 | a global replace of an absent pattern leaves the text unchanged |
| Text.NatToDecimalInjective | utils.js:48 | distinct star counts render as distinct decimal texts |
| Records.KeyStringInjective | utils.js:48 | for non-negative star counts, two entries have the same `${ruName}-${stars}` text exactly when their names and star counts are equal |
| Records.KeyStringCollision | utils.js:48 | with a negative star count, two different entries share a key text |
| Records.ToJson | app.jsx:107-108 | the exported record holds each of the six fields of the entry |
| OrderedMaps.OrderedMap.Set | app.jsx:157 | `Map.set`: the value is replaced; a new key is appended; an existing key keeps its place |
| OrderedMaps.OrderedMap.Delete | app.jsx:168 | `Map.delete`: the key and its value are removed and the order of the others is kept |
| OrderedMaps.FromPairsKeys | utils.js:55-69 | a map built by setting pairs in order has the pair keys without repeats, in first-occurrence order |
| OrderedMaps.FromPairsVals | utils.js:55-69 | a key of such a map holds the value of its last pair |
| Columns.ColumnIdsDistinct | config.js:4-12 | the column ids are pairwise distinct |
| Columns.DefaultsMatchConfig | config.js:14-27 | the default visibility shows every configured column and the default widths are the configured ones |
| Columns.ConfigDefaultsWithinBounds | config.js:4-12 | each adjustable column has bounds, and its default width lies between them |
| Columns.FindColumn | app.jsx:235 | `columnConfig.find` by id: a column with that id, or none when no column has it |
| Utils.GetStars | utils.js:4 | `getStars(count)` is `count` star glyphs, and fails for a negative count |
| Utils.FormatEffectText | utils.js:6-13 | a non-string gives ''; with both tags a newline is inserted before the first armor tag and nothing else changes; otherwise the text is unchanged |
| Utils.CatalogPairs | utils.js:48 | the initial map is built from each catalog entry under its key, marked not custom |
| Utils.DecodeSaved | utils.js:58-67 | a saved element becomes an entry with its name and stars, its text fields as given or '' when falsy, learned only when it is `true`, custom by its flag or else by absence from the catalog |
| Utils.SavedPairs | utils.js:57-69 | only elements with a string name and a number of stars are kept, each under its own key |
| Utils.SavedPairsKeys | utils.js:57-69 | the keys of the kept pairs are the keys of the valid elements, in order |
| Utils.WithInitialLearned | utils.js:89-93 | without usable saved data, each catalog entry is kept, with its learned mark taken from the initial learned set |
| Utils.BuildSavedMap | utils.js:55-69 | the loop builds exactly the map of the valid saved elements |
| Utils.MergeCatalog | utils.js:72-82 | the loop produces the catalog section and leaves in the saved map exactly the keys not in the catalog, with their values |
| Utils.AppendLeftovers | utils.js:84 | the remaining saved entries are appended in map order |
| Utils.LoadModules | utils.js:32-96 | `loadModules` returns the result its specification function describes for every catalog and saved item |
| Utils.CatalogMapKeys | utils.js:48 | the initial map holds each catalog key once, in first-occurrence order |
| Utils.CatalogMapVals | utils.js:48 | a catalog key maps to its last catalog entry, marked not custom |
| Utils.SavedMapKeys | utils.js:55-69 | the saved map holds each valid key once, in first-occurrence order |
| Utils.SavedMapVals | utils.js:55-69 | a saved key maps to the last valid element with that key |
| Utils.LoadWithoutSavedKeys | utils.js:86-93 | without a saved array the loaded list has the catalog's keys in order, so its keys are unique exactly when the catalog's are |
| Utils.LoadKeys | utils.js:47-84 | the loaded list has the catalog keys first, then the saved keys the catalog lacks, and no key twice |
| Utils.LoadMerge | utils.js:71-84 | with a saved array, the loaded list is the catalog section followed by the leftover section |
| Utils.LoadCatalogEntry | utils.js:72-82 | each catalog position holds the saved entry for its key if there is one, else the catalog entry with its initial learned mark |
| Utils.SaveRecord | utils.js:101-103 | the saved record is an object that keeps name and stars as they were and holds no field beyond the six saved ones |
| Utils.SaveRecordCoerces | utils.js:101-103 | the saved record coerces learned and isCustom to booleans and defaults falsy names and effects to '' |
| Utils.SaveModules | utils.js:98-108 | saving fails exactly when an element is null or undefined; otherwise it saves one record per element |
| Utils.SaveRecordIdempotent | utils.js:101-103 | saving a saved record again changes nothing |
| Utils.SaveEntries | utils.js:98-104 | saving the application's entries succeeds and stores them as they are |
| Utils.DecodeEntry | utils.js:58-67 | a stored entry is read back as the same entry |
| Utils.ReloadRoundTrip | utils.js:32-108 | a list whose keys are unique, with the catalog keys first and custom keys after, is saved and loaded back unchanged |
| Utils.ReloadAfterLoad | utils.js:32-108 | for a non-empty catalog, what loading merged from a saved array is saved and loaded back unchanged, whatever the initial learned set |
| Utils.Clamp | utils.js:134 | the clamped width is unchanged inside the bounds, the upper bound above them and the lower bound below them; the lower bound wins when the bounds cross |
| Utils.ValidateVisibility | utils.js:119-128 | each column's visibility is the saved boolean if toggleable, forced true if not, and otherwise the default |
| Utils.ValidateWidths | utils.js:129-139 | each adjustable column's width is the saved number clamped, a fixed column's width is its default, others keep the default |
| Utils.ValidateSettings | utils.js:114-140 | the validated settings follow both rules, and every adjustable width lies within its column's bounds |
| Utils.ValidatedSettingsInBounds | utils.js:119-139 | settings that follow the rules keep every adjustable width in bounds and every fixed column visible |
| Utils.NoPartsKeepDefaults | utils.js:115-117 | settings with neither part give the defaults |
| Utils.DefaultsAreValidated | config.js:14-27 | the default settings are what validating an empty settings object gives |
| Utils.DefaultWidthsWithinBounds | config.js:21-27 | the default widths lie within the column bounds |
| Utils.LoadColumnSettings | utils.js:110-145 | missing or unparseable settings give the defaults; parsed settings are validated; the widths are always within bounds |
| Hooks.NextSort | hooks.js:80-85 | sorting sets the key; the direction is descending exactly when the same key was ascending |
| Hooks.NextSortTwice | hooks.js:80-85 | sorting the current key twice restores the sort configuration |
| Hooks.ToggleVisibility | hooks.js:68-73 | the column's visibility is negated (a missing entry counts as hidden) and no other column changes |
| Hooks.ToggleVisibilityTwice | hooks.js:68-73 | toggling a column twice restores the visibility map |
| Hooks.TableState.constructor | hooks.js:41-48 | the initial settings are `loadColumnSettings()` and the sort is by stars, ascending |
| Hooks.TableState.HandleVisibilityChange | hooks.js:68-73 | only the visibility changes, by the toggle |
| Hooks.TableState.HandleSort | hooks.js:80-85 | only the sort configuration changes, to the next sort |
| Hooks.TableState.HandleResetSettings | hooks.js:87-95 | the settings become the defaults, the sort is kept, and a success notice is shown |
| Hooks.TableState.ApplyImportedSettings | hooks.js:98-129 | a falsy or non-object value changes nothing; otherwise the settings are validated with fallback bounds 50 and 600 and every width is in bounds |
| Hooks.ModalState.constructor | hooks.js:192-193 | the modal starts closed, in add mode |
| Hooks.ModalState.OpenModal | hooks.js:195-198 | the modal is open on the given item (none for add mode) |
| Hooks.ModalState.CloseModal | hooks.js:200-203 | the modal is closed and the item cleared |
| Hooks.ToggleLearned | hooks.js:216-220 | entries matching name and stars have their learned mark negated; the others are unchanged |
| Hooks.ToggleLearnedTwice | hooks.js:216-220 | toggling twice restores the list |
| Hooks.ToggleLearnedKeys | hooks.js:216-220 | toggling keeps every key and the uniqueness of keys |
| Hooks.ToggleLearnedCount | hooks.js:216-220 | the learned count changes by the matching unlearned entries minus the matching learned ones |
| Hooks.NewModule | hooks.js:236-239 | a new entry has the form's key and is learned and custom |
| Hooks.AddModule | hooks.js:222-242 | adding is rejected exactly when a required field is missing or the key exists; otherwise the new entry is appended |
| Hooks.AddKeepsUnique | hooks.js:231-239 | a successful add keeps keys unique |
| Hooks.ApplyForm | hooks.js:258-262 | an edited entry takes the form's key and keeps its learned and custom marks |
| Hooks.SaveChanges | hooks.js:244-265 | an edit is rejected for missing fields, or for a changed key that already exists; otherwise exactly the entries with the original key are edited |
| Hooks.EditKeepsUnique | hooks.js:253-262 | a successful edit keeps keys unique |
| Hooks.RemoveMatching | hooks.js:269 | the filter removes as many entries as match |
| Hooks.RemoveMatchingMembers | hooks.js:269 | what remains is exactly the non-matching entries |
| Hooks.RemoveAppend | hooks.js:269 | removal distributes over concatenation |
| Hooks.DeleteModule | hooks.js:267-272 | without confirmation nothing changes; with it the matching entries are removed |
| Hooks.DeleteUnique | hooks.js:267-272 | with unique keys, deleting an entry removes exactly that position |
| Hooks.AddThenDelete | hooks.js:222-272 | deleting a freshly added entry restores the list |
| Hooks.RemoveKeepsUnique | hooks.js:269 | removal keeps keys unique |
| Hooks.ModuleList.constructor | hooks.js:214 | the handlers start on the given list and modal |
| Hooks.ModuleList.HandleLearnedChange | hooks.js:216-220 | the list becomes its toggle, keys stay unique |
| Hooks.ModuleList.HandleAddNewModule | hooks.js:222-242 | a rejected add changes nothing and reports why; a successful one appends the entry, closes the modal, clears the edited item and reports success |
| Hooks.ModuleList.HandleSaveChangesInModal | hooks.js:244-265 | a rejected edit changes nothing and reports why; a successful one edits, closes the modal, clears the edited item and reports success |
| Hooks.ModuleList.HandleDeleteModule | hooks.js:267-272 | the list becomes the confirmed deletion, keys stay unique, and a success notice is shown only when the deletion was confirmed |
| App.ImportPairs | app.jsx:156-158 | only truthy elements with a truthy name and star count are kept, each under its key text |
| App.ImportPairsKeys | app.jsx:156-158 | the keys of the kept pairs are the keys of the kept elements, in order |
| App.ImportedMapKeys | app.jsx:154-158 | the imported map holds each kept key once, in first-occurrence order |
| App.ImportedMapVals | app.jsx:154-158 | an imported key maps to the last kept element with that key |
| App.ImportedMapKeyed | app.jsx:154-158 | every value of the imported map is kept and sits under its own key |
| App.ImportCatalogSection | app.jsx:160-172 | the catalog section has one entry per catalog key |
| App.CustomEntry | app.jsx:175-182 | a custom entry takes the element's name and stars, names or '', its truthiness as learned, and is custom |
| App.CustomEntryKey | app.jsx:174-182 | a custom entry sits under the key it was imported with |
| App.CustomSection | app.jsx:174-183 | the custom section has at most one entry per remaining key, all custom |
| App.BuildImportedMap | app.jsx:154-158 | the loop builds exactly the imported map |
| App.MergeImported | app.jsx:160-172 | the loop produces the catalog section and leaves in the imported map exactly the keys not in the catalog, with their values |
| App.AppendCustom | app.jsx:174-183 | the remaining imported records are appended as custom entries in map order |
| App.ImportModules | app.jsx:152-185 | the merge returns what its specification function describes for every catalog and file |
| App.CustomSectionKeys | app.jsx:174-183 | custom entries have distinct keys from the remaining ones and are built from the imported value under their key |
| App.ImportSections | app.jsx:152-183 | the imported list is the catalog section followed by the custom section |
| App.ImportCatalogKeys | app.jsx:160-172 | the catalog section has the catalog keys, in order |
| App.MergedKeys | app.jsx:153-183 | the merged list has unique keys, the catalog keys first, then custom entries whose keys were imported and are not in the catalog |
| App.ImportListKeys | app.jsx:152-183 | the imported list has unique keys; it starts with the catalog keys; the rest are custom, missing from the catalog and present in the file |
| App.ImportCatalogEntry | app.jsx:160-172 | a catalog entry takes learned from the file's last record for its key, and is custom only when that record says `true`; without a record it is not learned |
| App.ImportCustomEntries | app.jsx:174-183 | each entry after the catalog section is built from the imported record under its key |
| App.ExportedPairs | app.jsx:107-108 | the exported pairs are each entry's key with its exported record |
| App.ExportedEntryKept | app.jsx:107-108 | an exported entry with a name and a non-zero star count is kept by the import, under its own key |
| App.ImportPairsOfEntries | app.jsx:104-158 | importing an export keeps every record, in order |
| App.CustomEntryOfExport | app.jsx:174-182 | an exported custom entry is imported back as the same entry |
| App.CustomSectionRebuild | app.jsx:174-183 | custom records exported in order are rebuilt as the same entries |
| App.ExportedMapKeys | app.jsx:154-158 | the imported map of an export has the list's keys in list order |
| App.ExportedMapVal | app.jsx:154-158 | each key of an export maps to that entry's record |
| App.ImportRoundTrip | app.jsx:104-185 | exporting a list (catalog entries first, then custom entries, unique keys, names and stars set) and importing it gives the same list |
| App.ImportTwice | app.jsx:152-185 | when every catalog entry has a name and a non-zero star count, importing the export of an import gives the same list again |
| App.ImportOutcome | app.jsx:132-209 | the import succeeds exactly for a parsed object with a `modules` array, a loaded catalog and a confirmation; no notice exactly without a file or when the confirmation is declined |
| App.AppState.constructor | app.jsx:5-7 | no catalog and no entries yet |
| App.AppState.LoadInitialData | app.jsx:63-82 | the fetched catalog, or the empty one when the fetch failed, becomes the catalog, and the list is what loading makes of it and the saved data |
| App.AppState.HandleImportFile | app.jsx:132-209 | on success, the entries become the merge and the settings are validated from the file or reset; on any other outcome nothing changes; the catalog and the sort never change |
| Lists.Filter | app.jsx:216-231 | `filter`: every kept element passes, nothing is added |
| Lists.FilterKeeps | app.jsx:216-231 | every element that passes is kept as often as it occurs |
| Lists.Insert | app.jsx:237-259 | insertion adds exactly the element |
| Lists.SortBy | app.jsx:237-259 | sorting rearranges its input: same length, same elements |
| Lists.InsertSorted | app.jsx:237-259 | inserting into a sorted list keeps it sorted |
| Lists.SortBySorted | app.jsx:237-259 | for an antisymmetric comparator the result is sorted |
| Lists.SortedAllPairs | app.jsx:237-259 | for a transitive comparator, a sorted list has every earlier element at most equal to every later one |
| Lists.SortBySameOrder | app.jsx:237-259 | comparators that agree everywhere sort alike |
| View.Searched | app.jsx:215-220 | with a term, exactly the entries whose name, English name or effect includes it, each as often as it occurs; no term keeps all |
| View.ByLearned | app.jsx:222-227 | 'learned' keeps the learned entries, 'notLearned' the others, any other filter all |
| View.ByStars | app.jsx:229-231 | a selected star count keeps exactly the entries with it |
| View.FilteredSelection | app.jsx:212-231 | the filtered list holds exactly the shown entries, each as often as in the list |
| View.FieldOf | app.jsx:239-240 | a property read yields a value exactly for the six entry fields |
| View.CompareAntisymmetric | app.jsx:238-258 | the comparator is antisymmetric when `localeCompare` is |
| View.PrimaryTrans | app.jsx:238-253 | the comparison of the sort column, by its type, chains "at most equal" when `localeCompare` does |
| View.CompareTransitive | app.jsx:238-258 | the comparator, with its direction and its tie-break by Russian name, is transitive when `localeCompare` is antisymmetric and transitive |
| View.ProcessedModules | app.jsx:212-213 | nothing is shown while loading |
| View.ProcessedIsSortedSelection | app.jsx:212-262 | the processed list is exactly the shown entries, each as often as in the list, sorted by the comparator; when `localeCompare` is also transitive, every earlier entry compares at most equal to every later one |
| View.NonFieldSortIgnoresDirection | app.jsx:233-258 | sorting on a column id that is not an entry field gives the same order both ways, by Russian name |
| View.NameColumnsAreNotFields | config.js:6-9 | the sortable `name` and `module_materials` columns are configured, and neither is one of the six fields of an entry, so for entries with only those fields they are such ids |
| View.ComputeStats | app.jsx:271-277 | zeros while loading; otherwise the total is the list length and the learned count does not exceed it |
| View.StatsCountLearned | app.jsx:274 | the learned count is the number of learned entries |
| View.StatsAfterToggle | app.jsx:271-277 | toggling one entry moves the learned count by one in the right direction |
| View.LearnedCountUpdate | app.jsx:274 | the learned count after negating one entry's mark |
| Language.Lookup | LanguageContext.jsx:76 | the translation of the key, or the key itself when it is missing or empty |
| Language.Placeholder | LanguageContext.jsx:78 | the placeholder is the name wrapped in two braces on each side |
| Language.SubstituteNothing | LanguageContext.jsx:75-77 | without parameters the text is unchanged |
| Language.SubstituteAppend | LanguageContext.jsx:77-80 | substituting two parameter lists in a row is substituting their concatenation |
| Language.SubstituteOne | LanguageContext.jsx:78-79 | a parameter replaces every occurrence of its placeholder and nothing else |
| Language.SubstituteAbsent | LanguageContext.jsx:78-79 | a text without the placeholder is unchanged |
| Language.SubstituteChains | LanguageContext.jsx:77-80 | for any names and value, a placeholder brought in by an earlier parameter's value is replaced by a later parameter of that name |
| Language.LanguageState.constructor | LanguageContext.jsx:7-8 | the initial language is the stored one when it is non-empty, else 'en'; no translations yet |
| Language.LanguageState.T | LanguageContext.jsx:75-82 | `t` returns the translation or key with each parameter substituted in turn |
| Language.LanguageState.SwitchLanguage | LanguageContext.jsx:84-92 | 'en', 'ua' and 'ru' become the current and stored language; any other value changes nothing |

## Left out

- Fetching the catalog and the translation files (LanguageContext.jsx:12-73 and app.jsx:63-82) is not modelled. The fallback to English depends on network responses. The translations are an input. The fetched catalog, or its absence when the fetch failed, is a parameter of `App.AppState.LoadInitialData`.
- `App.AppState.LoadInitialData`: the loading flag and the error notification of a failed fetch are not modelled. With an empty catalog the source puts the saved array into the list unvalidated. The method returns that array, but the typed entry list of the model keeps its previous value.
- Timers are left out, because they carry no logic beyond delaying a value:
  - the search and width debouncing (`useDebounce`);
  - the temporary slider widths (`tempWidths`, `handleTempWidthChange`);
  - the notification timeout.
- `saveColumnSettings` and the effects that call it or `saveModules` are left out. They only write local storage.
- Rendering is left out:
  - `highlightText`;
  - the sidebar hook;
  - the column labels;
  - the stats percentage, which is floating-point text from `toFixed`.
- Catalog entries are taken to carry only the six fields `ruName`, `enName`, `effect`, `stars`, `learned` and `isCustom`. The catalog file is not part of this model. Any other field of a catalog entry is kept by the source's object spreads (utils.js:47, 88, 92 and app.jsx:153) but is not represented here. Sorting on the `name` and `module_materials` columns ignores the direction only under this assumption (`View.NonFieldSortIgnoresDirection`, `View.NameColumnsAreNotFields`). A catalog entry carrying such a field would be sorted on it (app.jsx:239-240).
- Numbers are integers. NaN, fractional star counts and widths, and the ordering of floating point values are not represented.
- `Utils.LoadModules`: `userLearnedListOnInit` is not defined in the files of this model. The initial learned set is a parameter.
- `Utils.LoadModules`: the storage key `LS_KEYS.MODULES` is read as given. The constant table does not define it, which is not modelled.
- `Utils.DecodeSaved`: a truthy `enName` or `effect` of the saved data that is not a string is held as its `String()` form. The source keeps the value itself, and an entry of this model holds only text.
- `App.ImportModules`: a custom record whose `ruName` is not a string, or whose `stars` is not a number, is not appended. The source would append it with those values, which an entry of this model cannot hold.
- `App.CustomEntry`: a truthy `enName` or `effect` that is not a string is held as its `String()` form. The source keeps the value itself.
- `App.AppState.HandleImportFile`: the notification texts, the clearing of the file input and the asynchrony of `FileReader` are not modelled. The notice kind is returned instead.
- `Utils.ReloadAfterLoad`: the round trip is not promised on the other loading paths. When the first load had no saved array, a catalog that repeats a key is loaded with the repeat, and the reload merges the repeat into one entry. With an empty catalog the list is not merged at all.
- `App.ImportTwice`: the idempotence is not promised for a catalog entry with an empty name or zero stars. The export writes those falsy values, so the second import drops that record, and the entry loses the learned mark the first import gave it.
- `View.ProcessedIsSortedSelection`: the stability of the sort is built into `Lists.SortBy` but is not stated as a lemma.
- `View.ProcessedModules`: `toLowerCase` and `localeCompare` are parameters. Locale-aware text comparison has no Dafny counterpart.
- `View.NumberKey`: `Number()` of a text field is taken as 0. No number column reads a text field.
- `Language.LanguageState.T`: parameter names are used literally in the placeholder pattern. Regular-expression metacharacters in a name, and `$` patterns in a value, are not interpreted.
- `Language.LanguageState.T`: parameter values are strings. `replace` would convert other values with `String()`.
- `Hooks.ModuleList.constructor`: requires unique keys. This makes key uniqueness an invariant of the handlers. Two kinds of list have unique keys: a list loaded from a non-empty catalog with a saved array (`Utils.LoadKeys`), and an imported list (`App.ImportListKeys`). Two loading paths are outside this invariant:
  - With an empty catalog, the saved array is taken unvalidated.
  - Without usable saved data, the catalog is used as it is. Its keys are unique only when the catalog's are (`Utils.LoadWithoutSavedKeys`).
