/**
 * Item-template registration and selection (dataview.ts, lines 131-157).
 * A projected `pTemplate` carries a type tag; `listItem` and `gridItem`
 * register the list and grid item templates, every other tag is ignored.
 */
module Templates {
  import opened Optional

  /** An opaque handle to a projected template. */
  datatype TemplateRef = TemplateRef(id: nat)

  /** A projected template: its `getType()` tag and the template itself. */
  datatype PrimeTemplate = PrimeTemplate(kind: string, template: TemplateRef)

  /**
   * The template registered for `kind` after walking `ts` in order, starting
   * from `current`: each entry of that kind overwrites the previous one.
   */
  function LastOfKind(ts: seq<PrimeTemplate>, kind: string, current: Option<TemplateRef>): Option<TemplateRef>
  {
    if ts == [] then current
    else
      var n := |ts| - 1;
      if ts[n].kind == kind then Some(ts[n].template)
      else LastOfKind(ts[..n], kind, current)
  }

  /** With no entry of `kind`, the registration keeps what it had. */
  lemma {:induction false} LastOfKindAbsent(ts: seq<PrimeTemplate>, kind: string, current: Option<TemplateRef>)
    requires forall i | 0 <= i < |ts| :: ts[i].kind != kind
    ensures LastOfKind(ts, kind, current) == current
  {
    if ts != [] {
      LastOfKindAbsent(ts[..|ts| - 1], kind, current);
    }
  }

  /** The last entry of `kind` wins; entries of other kinds, before or after it, do not matter. */
  lemma {:induction false} LastOfKindWins(ts: seq<PrimeTemplate>, kind: string, current: Option<TemplateRef>, i: nat)
    requires i < |ts| && ts[i].kind == kind
    requires forall j | i < j < |ts| :: ts[j].kind != kind
    ensures LastOfKind(ts, kind, current) == Some(ts[i].template)
  {
    var n := |ts| - 1;
    if i < n {
      LastOfKindWins(ts[..n], kind, current, i);
    }
  }

  /** Registering `a` then `b` is registering `b` starting from what `a` left. */
  lemma {:induction false} LastOfKindAppend(a: seq<PrimeTemplate>, b: seq<PrimeTemplate>, kind: string, current: Option<TemplateRef>)
    ensures LastOfKind(a + b, kind, current) == LastOfKind(b, kind, LastOfKind(a, kind, current))
  {
    if b == [] {
      assert a + b == a;
    } else {
      var n := |b| - 1;
      assert (a + b)[..|a + b| - 1] == a + b[..n];
      LastOfKindAppend(a, b[..n], kind, current);
    }
  }

  /** Swapping two neighbouring entries of different kinds changes no registration. */
  lemma OtherKindsCommute(p: seq<PrimeTemplate>, e1: PrimeTemplate, e2: PrimeTemplate, q: seq<PrimeTemplate>,
                          kind: string, current: Option<TemplateRef>)
    requires e1.kind != e2.kind
    ensures LastOfKind(p + [e1, e2] + q, kind, current) == LastOfKind(p + [e2, e1] + q, kind, current)
  {
    LastOfKindAppend(p + [e1, e2], q, kind, current);
    LastOfKindAppend(p + [e2, e1], q, kind, current);
    LastOfKindAppend(p, [e1, e2], kind, current);
    LastOfKindAppend(p, [e2, e1], kind, current);
    assert [e1, e2][..1] == [e1] && [e2, e1][..1] == [e2];
  }

  /** `updateItemTemplate`: the template for `layout`, or `current` for any other layout. */
  function SelectItemTemplate(layout: string, list: Option<TemplateRef>, grid: Option<TemplateRef>,
                              current: Option<TemplateRef>): (r: Option<TemplateRef>)
    ensures r == list || r == grid || r == current
  {
    if layout == "list" then list
    else if layout == "grid" then grid
    else current
  }
}
