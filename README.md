# DataView controller model

A Dafny model of PrimeNG's DataView component (`p-dataView`), the widget that
renders a collection of records as a list or a grid, with optional paging,
sorting and lazy loading delegated to the host, together with its two
companion controls: the layout toggle (`p-dataViewLayoutOptions`) and the sort
dropdown (`p-dataViewSortDropdown`).

Modules, one per concern of `src/app/components/dataview/dataview.ts`:

- `SortKeys` (`sort_keys.dfy`): the values a record yields at the sort field
  (`Null | Str | Int`) and the comparator handed to `Array.prototype.sort`,
  proved antisymmetric and transitive, with null below every other key.
- `Sorting` (`sorting.dfy`): the in-place sort of the value array.
  `StableSort` is the specification. `SortInPlace` is an insertion sort on the
  array, proved to produce exactly `StableSort`. Lemmas prove that the result
  is a permutation, is in comparator order and is stable. They also prove that
  nulls come first ascending and last descending, and that re-sorting
  descending reverses an ascending sort that has no ties.
- `Pagination` (`pagination.dfy`): the visible window of line 23, with
  `Array.prototype.slice`'s clamping of its bounds.
- `Templates` (`templates.dfy`): registration of the `listItem`/`gridItem`
  templates and selection of the item template.
- `SortEncoding` (`sort_encoding.dfy`): the `"!field"` / `"field"` option values
  of the sort dropdown.
- `DataViewComponent` (`dataview.dfy`): the `DataView` class, with a field for
  each field of the component, and the classes `LayoutOptions` and
  `SortDropdown`. Emitted `onLazyLoad`/`onPage` events are appended to the
  field `emitted`. Each method states the whole new state of the component
  through the ghost snapshot `State()`.
  `DataView.LazyLoadMetadata` is the definition of `createLazyLoadMetadata`
  (the payload `{first, rows}`), and `DataView.Effective` the definition of
  `filteredValue || value`; what they mean is stated by the contracts that use
  them (`OnInit`, `Sort`, `Paginate`, `IsEmpty`, `EmptyFilterHidesValue`).
- `Scenarios` (`scenarios.dfy`): hosts driving a DataView: the lazy-load guard,
  the dropdown that bypasses it, a second page of 25 records, and a layout
  chosen before the templates were registered.

Where the code differs from the obvious reading of it, the model follows the
code:

- In lazy mode the window is the first `rows` records of the supplied
  collection, `[0, rows)`, not the whole collection (`lazy ? 0 : first` at
  line 23): `Pagination.WindowLazy`.
- `filteredValue || value` takes a non-null but empty filtered array over
  `value`, so such a view is empty: `DataViewComponent.EmptyFilterHidesValue`.
- `updateItemTemplate` leaves the item template unchanged for a layout other
  than `list` and `grid`. It does not fall back to the list template.
- `layout` is a plain input. A host that assigns it directly, without
  `changeLayout`, does not re-select the item template, so `TemplateInSync`
  holds only after `changeLayout` or `ngAfterContentInit`.
- The sort dropdown writes `_sortField`/`_sortOrder` and calls `sort()`
  directly. It therefore sorts, and in lazy mode emits a lazy load, even before
  `ngOnInit`: `Scenarios.DropdownBypassesGuard`.

## Model

| member | source | states |
|---|---|---|
| `SortKeys.CompareStrings` | src/app/components/dataview/dataview.ts:211-212 | the string comparison returns -1, 0 or 1, and 0 exactly for equal strings |
| `SortKeys.CompareStringsAntisymmetric` | src/app/components/dataview/dataview.ts:212 | swapping two strings negates their comparison |
| `SortKeys.CompareStringsTransitive` | src/app/components/dataview/dataview.ts:212 | the string order is transitive |
| `SortKeys.Compare` | src/app/components/dataview/dataview.ts:203-214 | the base comparator returns -1, 0 or 1, and 0 exactly when the two keys are equal (two nulls included) |
| `SortKeys.NullIsLeast` | src/app/components/dataview/dataview.ts:205-210 | null against non-null gives -1, non-null against null gives 1, two nulls give 0 |
| `SortKeys.CompareAntisymmetric` | src/app/components/dataview/dataview.ts:205-214 | swapping the two keys negates the base result |
| `SortKeys.CompareTransitive` | src/app/components/dataview/dataview.ts:205-214 | the base comparator is a transitive order over null, strings and integers |
| `SortKeys.SortCompareSign` | src/app/components/dataview/dataview.ts:216 | the returned value is 0 for equal keys, and otherwise `sortOrder` or `-sortOrder` according to the base result |
| `SortKeys.SortCompareAntisymmetric` | src/app/components/dataview/dataview.ts:216 | the comparator after the `sortOrder` multiplication is still antisymmetric |
| `SortKeys.SortCompareTransitive` | src/app/components/dataview/dataview.ts:216 | the comparator is transitive for every `sortOrder`, descending included |
| `SortKeys.SortCompareZero` | src/app/components/dataview/dataview.ts:216 | with a non-zero `sortOrder`, only equal keys compare equal |
| `SortKeys.NullsLastWhenDescending` | src/app/components/dataview/dataview.ts:205-216 | with a negative `sortOrder` a null key compares after every non-null key |
| `Sorting.Insert` | src/app/components/dataview/dataview.ts:200 | one insertion step yields one record more than it was given |
| `Sorting.InsertPermutes` | src/app/components/dataview/dataview.ts:200 | one insertion step adds exactly the inserted record: the result is the multiset of the old records plus it |
| `Sorting.StableSort` | src/app/components/dataview/dataview.ts:200-217 | the sorted sequence has as many records as the input |
| `Sorting.StableSortPermutes` | src/app/components/dataview/dataview.ts:200-217 | the sort neither loses nor duplicates a record: the result is a permutation of the input (same multiset) |
| `Sorting.InsertInPlace` | src/app/components/dataview/dataview.ts:200 | moving `a[i]` left past the greater records leaves `a[..i+1]` equal to `Insert` of the old prefix and the old `a[i]`, and the rest of the array unchanged |
| `Sorting.SortInPlace` | src/app/components/dataview/dataview.ts:200-217 | after sorting in place, the array holds exactly `StableSort` of its old contents |
| `Sorting.InsertSorted` | src/app/components/dataview/dataview.ts:200-217 | inserting into a sorted sequence keeps it sorted |
| `Sorting.StableSortSorted` | src/app/components/dataview/dataview.ts:200-217 | the sorted sequence is in comparator order: `cmp(a, b) <= 0` for every earlier `a` and later `b` |
| `Sorting.TiesAppend` | src/app/components/dataview/dataview.ts:200-217 | the records tied with a key, taken from a concatenation, are those from each part in turn |
| `Sorting.InsertKeepsTies` | src/app/components/dataview/dataview.ts:200-217 | an insertion step places the new record after every record it ties with |
| `Sorting.StableSortKeepsTies` | src/app/components/dataview/dataview.ts:200-217 | the sort is stable: records that compare equal keep their relative order |
| `Sorting.NullPlacement` | src/app/components/dataview/dataview.ts:205-216 | ascending puts every null-keyed record first and descending puts them last, and the null-keyed records keep their relative order |
| `Sorting.StrictlySortedAppend` | src/app/components/dataview/dataview.ts:200-217 | a record above every record of a strictly sorted sequence extends it strictly sorted |
| `Sorting.InsertStrict` | src/app/components/dataview/dataview.ts:200-217 | inserting a record whose key no other record has keeps a strictly sorted sequence strictly sorted |
| `Sorting.StableSortStrict` | src/app/components/dataview/dataview.ts:200-217 | when no two records share a key, the sorted sequence is strictly ordered |
| `Sorting.InsertAtFront` | src/app/components/dataview/dataview.ts:200-217 | a record that compares below every other record is inserted at the front |
| `Sorting.DescendingReverses` | src/app/components/dataview/dataview.ts:216 | sorting a strictly ascending sequence with `sortOrder = -1` reverses it |
| `Sorting.SortReversal` | src/app/components/dataview/dataview.ts:200-217 | without ties, sorting ascending and then re-sorting descending by the same field yields exactly the reverse of the ascending order |
| `Pagination.SliceBound` | src/app/components/dataview/dataview.ts:23 | a slice bound lies within the array, and a non-negative bound is clipped to the array's length |
| `Pagination.Slice` | src/app/components/dataview/dataview.ts:23 | a slice is never longer than the array |
| `Pagination.WindowWithoutPaginator` | src/app/components/dataview/dataview.ts:23 | without a paginator the whole effective collection is rendered |
| `Pagination.WindowEager` | src/app/components/dataview/dataview.ts:23 | eager paging renders `eff[first .. min(first + rows, len))`, at most `rows` records |
| `Pagination.WindowLazy` | src/app/components/dataview/dataview.ts:23 | lazy paging renders `eff[0 .. min(rows, len))`, whatever `first` is |
| `Pagination.WindowIsContiguous` | src/app/components/dataview/dataview.ts:23 | the rendered records are a contiguous run of the effective collection, in order |
| `Pagination.PagesCoverCollection` | src/app/components/dataview/dataview.ts:23 | the eager pages at `0, rows, 2*rows, ...`, concatenated, are the whole collection, so every record is shown on exactly one page |
| `Templates.LastOfKindAbsent` | src/app/components/dataview/dataview.ts:132-142 | with no projected template of a type, that type's registration is unchanged |
| `Templates.LastOfKindWins` | src/app/components/dataview/dataview.ts:132-142 | the last projected template of a type is the one registered, whatever follows it |
| `Templates.LastOfKindAppend` | src/app/components/dataview/dataview.ts:132-142 | registration walks the templates in order: registering two lists is registering the second from what the first left |
| `Templates.OtherKindsCommute` | src/app/components/dataview/dataview.ts:132-142 | swapping two neighbouring templates of different types changes no registration |
| `Templates.SelectItemTemplate` | src/app/components/dataview/dataview.ts:147-157 | the selected item template is the list template, the grid template or the one already selected |
| `SortEncoding.DecodeSortValue` | src/app/components/dataview/dataview.ts:296-303 | the order is -1 exactly when the value starts with `!` and 1 otherwise, and the field is one character shorter than the value exactly when the order is -1; that the field is the rest of the value is stated by `SortEncoding.EncodeDecode` |
| `SortEncoding.EncodeDecode` | src/app/components/dataview/dataview.ts:296-303 | every option value is recovered from its decoded field and order |
| `SortEncoding.DecodeEncode` | src/app/components/dataview/dataview.ts:296-303 | a field that does not start with `!`, with order 1 or -1, decodes back from its option value: `"!price"` is `("price", -1)`, `"price"` is `("price", 1)` |
| `SortEncoding.BangFieldReadsDescending` | src/app/components/dataview/dataview.ts:296-303 | a field whose name starts with `!` cannot be chosen ascending: its value decodes as descending on the rest of the name |
| `DataViewComponent.DataView.constructor` | src/app/components/dataview/dataview.ts:41-95 | a new view starts in list layout on the first record, ascending, uninitialised, with no data, no templates and no events |
| `DataViewComponent.DataView.IsEmpty` | src/app/components/dataview/dataview.ts:221-224 | the view is empty exactly when the effective collection is null or has no record |
| `DataViewComponent.DataView.OnInit` | src/app/components/dataview/dataview.ts:99-104 | `ngOnInit` emits one lazy load `{first, rows}` exactly in lazy mode, then sets `initialized`, and changes nothing else |
| `DataViewComponent.DataView.Sort` | src/app/components/dataview/dataview.ts:193-219 | `first` becomes 0. Lazy mode emits exactly one lazy load `{0, rows}` and leaves the records alone. Eager mode emits nothing and leaves a non-null value array holding `StableSort` of its old contents. Nothing else changes |
| `DataViewComponent.DataView.SetSortField` | src/app/components/dataview/dataview.ts:110-117 | the field is always stored. The view sorts only when not lazy or already initialised, so a lazy view emits nothing before `ngOnInit` and exactly one lazy load after it |
| `DataViewComponent.DataView.SetSortOrder` | src/app/components/dataview/dataview.ts:122-129 | the order is always stored, and sorting follows the same guard as the sort field |
| `DataViewComponent.DataView.UpdateTotalRecords` | src/app/components/dataview/dataview.ts:173-175 | in eager mode `totalRecords` becomes the value array's length (0 for null); in lazy mode it is unchanged |
| `DataViewComponent.DataView.SetValue` | src/app/components/dataview/dataview.ts:163-166 | the value setter stores the array and recounts the records as `updateTotalRecords` does |
| `DataViewComponent.DataView.UpdateItemTemplate` | src/app/components/dataview/dataview.ts:147-157 | the item template becomes the list or grid template for those layouts, and stays as it was for any other layout |
| `DataViewComponent.DataView.ChangeLayout` | src/app/components/dataview/dataview.ts:168-171 | the layout is stored and the item template then matches it |
| `DataViewComponent.DataView.AfterContentInit` | src/app/components/dataview/dataview.ts:131-145 | the last `listItem` and the last `gridItem` template are registered, other types are ignored, and the item template is then re-selected for the layout |
| `DataViewComponent.DataView.Paginate` | src/app/components/dataview/dataview.ts:177-191 | `first` and `rows` are taken from the page change. A lazy load `{first, rows}` is emitted exactly in lazy mode, then always exactly one `onPage {first, rows, sortField, sortOrder}`. Nothing else changes |
| `DataViewComponent.EmptyViewRendersNothing` | src/app/components/dataview/dataview.ts:23-26 | an empty view renders no record, and without a paginator a view renders no record only when it is empty |
| `DataViewComponent.EmptyFilterHidesValue` | src/app/components/dataview/dataview.ts:222 | a non-null empty `filteredValue` makes the view empty and hides every record of `value` |
| `DataViewComponent.LayoutOptions.ChangeLayout` | src/app/components/dataview/dataview.ts:262-265 | the list/grid buttons change the view's layout and item template as `changeLayout` does |
| `DataViewComponent.SortDropdown.OnChange` | src/app/components/dataview/dataview.ts:291-308 | the decoded field and order are written, and the view sorts unconditionally, even in a lazy view before `ngOnInit` |
| `Scenarios.LazySortGuard` | src/app/components/dataview/dataview.ts:99-129 | in lazy mode a sort change before `ngOnInit` emits nothing, `ngOnInit` emits one lazy load, and a sort change afterwards emits exactly one more |
| `Scenarios.DropdownBypassesGuard` | src/app/components/dataview/dataview.ts:291-308 | the dropdown's `"!price"` sets field `price`, order -1, and emits a lazy load in a lazy view that is not yet initialised |
| `Scenarios.SecondPage` | src/app/components/dataview/dataview.ts:23 | with 25 records, `rows = 10` and the paginator on in eager mode, page 2 gives total 25, shows records 10 to 19 and emits `onPage {10, 10, undefined, 1}` |
| `Scenarios.GridChosenBeforeTemplates` | src/app/components/dataview/dataview.ts:131-171 | a grid layout chosen before the templates are projected renders the grid template once they are |

## Left out

- Rendering: the template markup, `ngClass`/`ngStyle`, the header and footer projection, `paginatorPosition`, `emptyMessage`, `trackBy`, `style`/`styleClass` and `getBlockableElement`. Only the window expression of line 23 is modelled.
- The paginator and dropdown controls themselves. A page change is only the `(first, rows)` pair that `paginate` reads, and a dropdown selection is only the string `onChange` reads.
- `ObjectUtils.resolveFieldData` is not part of this model. It is the field-resolution function `resolve` that each `DataView` is constructed with.
- `EventEmitter` delivery and `event.preventDefault()`. An emitted event is appended to `emitted`.
- `NgModule` wiring and dependency injection.
- Inputs the host never bound (`undefined`) are modelled by their falsy counterparts: `false`, 0, `None`, null. In particular `rows` and `totalRecords` start at 0.
- `SortKeys.CompareStrings`: `localeCompare` is replaced by lexicographic order on character codes. Locale-specific collation is not modelled.
- `SortKeys.Compare`: keys are restricted to null, strings and integers. A number against a string is ordered by kind (numbers first) instead of by JavaScript's coercing `<`/`>`. Floating-point numbers, `NaN` and other value types are not modelled.
- `Sorting.SortInPlace`: the engine's sort algorithm is modelled as a stable insertion sort. Engines of the time were not required to sort stably. For records that tie, the source may therefore produce another order. Every other property of the result (permutation, comparator order, nulls first ascending and last descending, reversal without ties) holds for any correct sort; that the null-keyed records keep their relative order (the third promise of `Sorting.NullPlacement`) holds only for a stable sort.
- `Sorting.SortInPlace`: every element of the value array is taken to be a record. `Array.prototype.sort` moves `undefined` elements and holes to the end, ascending or descending, without passing them to the comparator; the model has no such elements and orders every record by the key the field resolution gives it (a record whose field is missing has key `Null` and is ordered like any other null key).
