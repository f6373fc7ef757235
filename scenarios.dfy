/**
 * Hosts driving a DataView through its lifecycle, with what they observe.
 * Each result follows from the contracts of DataViewComponent alone.
 */
module Scenarios {
  import opened Optional
  import opened SortKeys
  import opened Templates
  import opened DataViewComponent

  /**
   * A lazy view: setting the sort field during input binding, before `ngOnInit`,
   * emits nothing; `ngOnInit` emits one lazy load; a later sort change emits
   * exactly one more.
   */
  method LazySortGuard<R>(resolve: (R, Option<string>) -> Key)
    returns (beforeInit: seq<Event>, atInit: seq<Event>, afterInit: seq<Event>)
    ensures beforeInit == []
    ensures atInit == [LazyLoad(0, 10)]
    ensures afterInit == atInit + [LazyLoad(0, 10)]
  {
    var dv := new DataView(resolve);
    dv.lazy := true;
    dv.rows := 10;
    dv.SetSortField(Some("price"));
    beforeInit := dv.emitted;
    dv.OnInit();
    atInit := dv.emitted;
    dv.SetSortField(Some("name"));
    afterInit := dv.emitted;
  }

  /** The sort dropdown sorts even a lazy view that is not initialised yet. */
  method DropdownBypassesGuard<R>(resolve: (R, Option<string>) -> Key)
    returns (events: seq<Event>, field: Option<string>, order: int)
    ensures events == [LazyLoad(0, 10)]
    ensures field == Some("price") && order == -1
  {
    var dv := new DataView(resolve);
    dv.lazy := true;
    dv.rows := 10;
    var dropdown := new SortDropdown(dv);
    dropdown.OnChange("!price");
    events, field, order := dv.emitted, dv.sortField, dv.sortOrder;
  }

  /**
   * An eager view of 25 records paged by 10: moving to the second page shows
   * records 10 to 19 and reports the page.
   */
  method SecondPage<R>(resolve: (R, Option<string>) -> Key, records: seq<R>)
    returns (total: int, shown: seq<R>, events: seq<Event>)
    requires |records| == 25
    ensures total == 25
    ensures shown == records[10..20]
    ensures events == [Page(10, 10, None, 1)]
  {
    var dv := new DataView(resolve);
    var a := new R[25](i requires 0 <= i < 25 => records[i]);
    assert a[..] == records;
    dv.SetValue(a);
    dv.paginator := true;
    dv.rows := 10;
    dv.Paginate(PageChange(10, 10));
    total, shown, events := dv.totalRecords, dv.VisibleItems(), dv.emitted;
  }

  /**
   * Switching to grid before the templates are registered still renders the
   * grid template once they are, whatever the order of their registration.
   */
  method GridChosenBeforeTemplates<R>(resolve: (R, Option<string>) -> Key, list: TemplateRef, grid: TemplateRef)
    returns (item: Option<TemplateRef>)
    ensures item == Some(grid)
  {
    var dv := new DataView(resolve);
    dv.ChangeLayout("grid");
    dv.templates := [PrimeTemplate("gridItem", grid), PrimeTemplate("header", list), PrimeTemplate("listItem", list)];
    dv.AfterContentInit();
    LastOfKindWins(dv.templates, "gridItem", None, 0);
    item := dv.itemTemplate;
  }
}
