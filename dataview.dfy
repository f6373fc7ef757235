/**
 * The DataView component (dataview.ts, lines 39-236) and its two companion
 * controls, DataViewLayoutOptions (lines 254-266) and DataViewSortDropdown
 * (lines 275-309).
 *
 * Inputs without a setter (`layout`, `paginator`, `rows`, `totalRecords`,
 * `lazy`, `filteredValue`, the projected `templates`) are plain fields the
 * host assigns; `value`, `sortField` and `sortOrder` have setters with side
 * effects and are assigned through SetValue, SetSortField and SetSortOrder.
 * Emitting an event appends it to `emitted`.
 */
module DataViewComponent {
  import opened Optional
  import opened SortKeys
  import opened Sorting
  import opened Pagination
  import opened Templates
  import opened SortEncoding

  /** The payloads of `onLazyLoad` and `onPage`. */
  datatype Event =
    | LazyLoad(first: int, rows: int)
    | Page(first: int, rows: int, sortField: Option<string>, sortOrder: int)

  /** The paginator's page-change event, as far as `paginate` reads it. */
  datatype PageChange = PageChange(first: int, rows: int)

  /** Every field of a DataView; the records held by its arrays are not part of it. */
  datatype Snapshot<R> = Snapshot(
    layout: string, paginator: bool, rows: int, totalRecords: int, lazy: bool,
    value: array?<R>, filteredValue: array?<R>, sortField: Option<string>, sortOrder: int,
    initialized: bool, first: int, templates: seq<PrimeTemplate>,
    listItemTemplate: Option<TemplateRef>, gridItemTemplate: Option<TemplateRef>,
    itemTemplate: Option<TemplateRef>, emitted: seq<Event>)

  /** A record's key at `field`, by the given field resolution. */
  function FieldKey<R>(resolve: (R, Option<string>) -> Key, field: Option<string>): R -> Key
  {
    r => resolve(r, field)
  }

  class DataView<R> {
    /** `ObjectUtils.resolveFieldData`, taken as given. */
    const resolve: (R, Option<string>) -> Key

    var layout: string
    var paginator: bool
    var rows: int
    var totalRecords: int
    var lazy: bool
    var value: array?<R>
    var filteredValue: array?<R>
    var sortField: Option<string>
    var sortOrder: int
    var initialized: bool
    var first: int
    var templates: seq<PrimeTemplate>
    var listItemTemplate: Option<TemplateRef>
    var gridItemTemplate: Option<TemplateRef>
    var itemTemplate: Option<TemplateRef>
    var emitted: seq<Event>

    ghost function State(): Snapshot<R>
      reads this
    {
      Snapshot(layout, paginator, rows, totalRecords, lazy, value, filteredValue, sortField, sortOrder,
               initialized, first, templates, listItemTemplate, gridItemTemplate, itemTemplate, emitted)
    }

    /** The field defaults; unset inputs (`undefined`, falsy) are false, 0 or None. */
    constructor (resolve: (R, Option<string>) -> Key)
      ensures this.resolve == resolve
      ensures State() == Snapshot("list", false, 0, 0, false, null, null, None, 1,
                                  false, 0, [], None, None, None, [])
    {
      this.resolve := resolve;
      layout, paginator, rows, totalRecords, lazy := "list", false, 0, 0, false;
      value, filteredValue, sortField, sortOrder := null, null, None, 1;
      initialized, first, templates := false, 0, [];
      listItemTemplate, gridItemTemplate, itemTemplate, emitted := None, None, None, [];
    }

    /** The key every record is sorted by: its value at the current sort field. */
    function SortKey(): R -> Key
      reads this
    {
      FieldKey(resolve, sortField)
    }

    /** `createLazyLoadMetadata`: the lazy-load payload for the current page position. */
    function LazyLoadMetadata(): Event
      reads this
    {
      LazyLoad(first, rows)
    }

    /** `filteredValue || value`: a non-null filtered array, even an empty one, wins. */
    function Effective(): Option<seq<R>>
      reads this, value, filteredValue
    {
      if filteredValue != null then Some(filteredValue[..])
      else if value != null then Some(value[..])
      else None
    }

    /** The records the view renders (line 23). */
    function VisibleItems(): seq<R>
      reads this, value, filteredValue
    {
      Window(Effective(), paginator, lazy, first, rows)
    }

    /** `isEmpty`: the effective collection is null or has no record. */
    function IsEmpty(): (r: bool)
      reads this, value, filteredValue
      ensures r <==> Effective().None? || |Effective().value| == 0
    {
      var data := if filteredValue != null then filteredValue else value;
      data == null || data.Length == 0
    }

    /** The rendered item template belongs to the current layout. */
    predicate TemplateInSync()
      reads this
    {
      && (layout == "list" ==> itemTemplate == listItemTemplate)
      && (layout == "grid" ==> itemTemplate == gridItemTemplate)
    }

    /** `ngOnInit`: one lazy load in lazy mode, then the component counts as initialised. */
    method OnInit()
      modifies this
      ensures State() == old(State()).(
        initialized := true,
        emitted := old(emitted) + if lazy then [LazyLoad(first, rows)] else [])
    {
      if lazy {
        emitted := emitted + [LazyLoadMetadata()];
      }
      initialized := true;
    }

    /**
     * `sort`: back to the first page; in lazy mode ask the host for the data,
     * otherwise reorder the value array in place by the comparator.
     */
    method Sort()
      modifies this, value
      ensures State() == old(State()).(
        first := 0,
        emitted := old(emitted) + if lazy then [LazyLoad(0, rows)] else [])
      ensures value != null ==>
        value[..] == if lazy then old(value[..]) else StableSort(old(value[..]), SortKey(), sortOrder)
    {
      first := 0;
      if lazy {
        emitted := emitted + [LazyLoadMetadata()];
      } else if value != null {
        SortInPlace(value, SortKey(), sortOrder);
      }
    }

    /**
     * The `sortField` setter: stores the field, and sorts unless a lazy view
     * has not been initialised yet.
     */
    method SetSortField(val: Option<string>)
      modifies this, value
      ensures State() == old(State()).(
        sortField := val,
        first := if !lazy || initialized then 0 else old(first),
        emitted := old(emitted) + if lazy && initialized then [LazyLoad(0, rows)] else [])
      ensures value != null ==>
        value[..] == if lazy then old(value[..]) else StableSort(old(value[..]), SortKey(), sortOrder)
    {
      sortField := val;
      if !lazy || initialized {
        Sort();
      }
    }

    /** The `sortOrder` setter, guarded like SetSortField. */
    method SetSortOrder(val: int)
      modifies this, value
      ensures State() == old(State()).(
        sortOrder := val,
        first := if !lazy || initialized then 0 else old(first),
        emitted := old(emitted) + if lazy && initialized then [LazyLoad(0, rows)] else [])
      ensures value != null ==>
        value[..] == if lazy then old(value[..]) else StableSort(old(value[..]), SortKey(), sortOrder)
    {
      sortOrder := val;
      if !lazy || initialized {
        Sort();
      }
    }

    /** `updateTotalRecords`: the array's length in eager mode (0 without one); untouched in lazy mode. */
    method UpdateTotalRecords()
      modifies this
      ensures State() == old(State()).(
        totalRecords := if lazy then old(totalRecords) else if value != null then value.Length else 0)
    {
      totalRecords := if lazy then totalRecords else if value != null then value.Length else 0;
    }

    /** The `value` setter: stores the array and recounts the records. */
    method SetValue(val: array?<R>)
      modifies this
      ensures State() == old(State()).(
        value := val,
        totalRecords := if lazy then old(totalRecords) else if val != null then val.Length else 0)
    {
      value := val;
      UpdateTotalRecords();
    }

    /** `updateItemTemplate`. */
    method UpdateItemTemplate()
      modifies this
      ensures State() == old(State()).(
        itemTemplate := SelectItemTemplate(layout, listItemTemplate, gridItemTemplate, old(itemTemplate)))
      ensures TemplateInSync()
      ensures layout != "list" && layout != "grid" ==> itemTemplate == old(itemTemplate)
    {
      if layout == "list" {
        itemTemplate := listItemTemplate;
      } else if layout == "grid" {
        itemTemplate := gridItemTemplate;
      }
    }

    /** `changeLayout`. */
    method ChangeLayout(l: string)
      modifies this
      ensures State() == old(State()).(
        layout := l,
        itemTemplate := SelectItemTemplate(l, listItemTemplate, gridItemTemplate, old(itemTemplate)))
      ensures TemplateInSync()
    {
      layout := l;
      UpdateItemTemplate();
    }

    /** `ngAfterContentInit`: register the projected templates in order, then select the item template. */
    method AfterContentInit()
      modifies this
      ensures listItemTemplate == LastOfKind(templates, "listItem", old(listItemTemplate))
      ensures gridItemTemplate == LastOfKind(templates, "gridItem", old(gridItemTemplate))
      ensures State() == old(State()).(
        listItemTemplate := listItemTemplate,
        gridItemTemplate := gridItemTemplate,
        itemTemplate := SelectItemTemplate(layout, listItemTemplate, gridItemTemplate, old(itemTemplate)))
      ensures TemplateInSync()
    {
      var ts := templates;
      for i := 0 to |ts|
        invariant listItemTemplate == LastOfKind(ts[..i], "listItem", old(listItemTemplate))
        invariant gridItemTemplate == LastOfKind(ts[..i], "gridItem", old(gridItemTemplate))
        invariant State() == old(State()).(listItemTemplate := listItemTemplate, gridItemTemplate := gridItemTemplate)
      {
        var item := ts[i];
        assert ts[..i + 1][..i] == ts[..i];
        if item.kind == "listItem" {
          listItemTemplate := Some(item.template);
        } else if item.kind == "gridItem" {
          gridItemTemplate := Some(item.template);
        }
      }
      assert ts[..|ts|] == ts;
      UpdateItemTemplate();
    }

    /**
     * `paginate`: take the page position from the paginator, ask for the page
     * in lazy mode, then report the page change.
     */
    method Paginate(e: PageChange)
      modifies this
      ensures State() == old(State()).(
        first := e.first,
        rows := e.rows,
        emitted := old(emitted)
          + (if lazy then [LazyLoad(e.first, e.rows)] else [])
          + [Page(e.first, e.rows, sortField, sortOrder)])
    {
      first := e.first;
      rows := e.rows;
      if lazy {
        emitted := emitted + [LazyLoadMetadata()];
      }
      emitted := emitted + [Page(first, rows, sortField, sortOrder)];
    }
  }

  /** An empty view renders nothing; without a paginator, rendering nothing means it is empty. */
  lemma EmptyViewRendersNothing<R>(dv: DataView<R>)
    ensures dv.IsEmpty() ==> dv.VisibleItems() == []
    ensures !dv.paginator ==> (dv.IsEmpty() <==> dv.VisibleItems() == [])
  {
  }

  /** A non-null but empty filtered array hides every record of `value`. */
  lemma EmptyFilterHidesValue<R>(dv: DataView<R>)
    requires dv.filteredValue != null && dv.filteredValue.Length == 0
    ensures dv.IsEmpty() && dv.VisibleItems() == []
  {
  }

  /** `DataViewLayoutOptions`: the list and grid buttons of a DataView. */
  class LayoutOptions<R> {
    const dv: DataView<R>

    constructor (dv: DataView<R>)
      ensures this.dv == dv
    {
      this.dv := dv;
    }

    /** A click on the list or grid button; `preventDefault` is not modelled. */
    method ChangeLayout(l: string)
      modifies dv
      ensures dv.State() == old(dv.State()).(
        layout := l,
        itemTemplate := SelectItemTemplate(l, dv.listItemTemplate, dv.gridItemTemplate, old(dv.itemTemplate)))
      ensures dv.TemplateInSync()
    {
      dv.ChangeLayout(l);
    }
  }

  /** `DataViewSortDropdown`: chooses the sort field and order of a DataView. */
  class SortDropdown<R> {
    const dv: DataView<R>

    constructor (dv: DataView<R>)
      ensures this.dv == dv
    {
      this.dv := dv;
    }

    /**
     * `onChange`: decode the option value, write the sort state directly
     * (bypassing the setters' guard) and sort, even in a lazy view that has
     * not been initialised.
     */
    method OnChange(v: string)
      modifies dv, dv.value
      ensures var c := DecodeSortValue(v);
        dv.State() == old(dv.State()).(
          sortField := Some(c.field),
          sortOrder := c.order,
          first := 0,
          emitted := old(dv.emitted) + if dv.lazy then [LazyLoad(0, dv.rows)] else [])
      ensures dv.value != null ==>
        dv.value[..] == if dv.lazy then old(dv.value[..])
                        else StableSort(old(dv.value[..]), dv.SortKey(), dv.sortOrder)
    {
      var c := DecodeSortValue(v);
      dv.sortField := Some(c.field);
      dv.sortOrder := c.order;
      dv.Sort();
    }
  }
}
