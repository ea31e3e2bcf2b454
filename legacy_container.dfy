/** The older `src/ResponsiveContainer.tsx`: its own copies of the tier list,
    the selector helpers, `display`, the threshold table and a memoised
    observer callback. Its `Breakpoint` enum has the same five values as the
    one in `src/lib/breakpoint.ts`, so both are the datatype `Breakpoints.Breakpoint`.
    Each copy is proved to agree with the newer definition.
 */
module LegacyResponsiveContainer {
  import opened JsObjects
  import B = Breakpoints
  import RC = ResponsiveContainer

  /** `BREAKPOINTS` of this file. */
  const BREAKPOINTS: seq<B.Breakpoint> := [B.XS, B.SM, B.MD, B.LG, B.XL]

  /** `isBreakpoint(value)`: `BREAKPOINTS.includes(value)` over this file's list;
      it accepts exactly what the newer `isBreakpoint` accepts. */
  predicate IsBreakpoint(value: string)
    ensures IsBreakpoint(value) <==> B.IsBreakpoint(value)
  {
    assert BREAKPOINTS == B.BREAKPOINTS;
    value in B.Values(BREAKPOINTS)
  }

  /** `containerBreakpoint(b)`: the self selector, as `containerBreakpointSelector`. */
  function ContainerBreakpoint(b: B.Breakpoint): (r: string)
    ensures r == B.ContainerBreakpointSelector(b)
    ensures B.ContainerSelectorBreakpoint(r) == Some(b)
  {
    B.SelectorRoundTrip(b);
    "&" + b.Value()
  }

  /** `breakpoint(b)`: the descendant selector, as `breakpointSelector`. */
  function BreakpointSelector(b: B.Breakpoint): (r: string)
    ensures r == B.BreakpointSelector(b)
    ensures B.SelectorBreakpoint(r) == Some(b)
  {
    B.SelectorRoundTrip(b);
    b.Value() + " &"
  }

  /** `containerStyle(b, style)` of this file. */
  function ContainerStyle<V>(b: B.Breakpoint, style: V): (r: Object<V>)
    ensures r == B.ContainerStyle(b, style)
  {
    [(ContainerBreakpoint(b), style)]
  }

  /** `childStyle(b, style)` of this file. */
  function ChildStyle<V>(b: B.Breakpoint, style: V): (r: Object<V>)
    ensures r == B.ChildStyle(b, style)
  {
    [(BreakpointSelector(b), style)]
  }

  /** `display(bOrValue, value?)` of this file: a descendant-scoped rule for a
      tier, an unconditional rule otherwise (also for `undefined`); it builds
      the same style object as the newer `display`. */
  function Display(bOrValue: Option<string>, value: Option<string>): (r: Object<B.CssValue>)
    ensures r == B.Display(bOrValue, value)
    ensures bOrValue.Some? && IsBreakpoint(bOrValue.value) ==>
      B.SelectorBreakpoint(r[0].0) == B.ParseBreakpoint(bOrValue.value)
    ensures !(bOrValue.Some? && IsBreakpoint(bOrValue.value)) ==> r == [("display", B.DisplayValue(bOrValue))]
  {
    if bOrValue.Some? && IsBreakpoint(bOrValue.value) then
      var b := B.ParseBreakpoint(bOrValue.value).value;
      [(BreakpointSelector(b), B.Block([("display", B.DisplayValue(value))]))]
    else
      [("display", B.DisplayValue(bOrValue))]
  }

  /** `DEFAULT_BREAKPOINTS` of this file. */
  const DEFAULT_BREAKPOINTS: RC.Thresholds := [(B.XS, 0), (B.SM, 384), (B.MD, 576), (B.LG, 768), (B.XL, 960)]

  /** Both copies of the threshold table are the same table: strictly
      ascending from 0, one entry per tier in `BREAKPOINTS` order. */
  lemma DefaultBreakpointsAgree()
    ensures DEFAULT_BREAKPOINTS == RC.DEFAULT_BREAKPOINTS
    ensures RC.DistinctTiers(DEFAULT_BREAKPOINTS)
    ensures DEFAULT_BREAKPOINTS[0].1 == 0
    ensures forall i, j :: 0 <= i < j < |DEFAULT_BREAKPOINTS| ==> DEFAULT_BREAKPOINTS[i].1 < DEFAULT_BREAKPOINTS[j].1
  {
    RC.DefaultBreakpointsAscending();
  }

  /** The memoised observer's callback: the same reconciliation over this
      file's table. For the last entry of each target, the target holds tier
      `b`'s raw class iff the width reaches `b`'s minimum width; other classes
      are kept. */
  method ObserverCallback(entries: seq<RC.ResizeEntry>)
    modifies set i | 0 <= i < |entries| :: entries[i].target
    ensures forall i :: 0 <= i < |entries| && RC.IsLastReport(entries, i) ==>
      entries[i].target.classList == RC.Classify(DEFAULT_BREAKPOINTS, old(entries[i].target.classList), entries[i].width)
    ensures forall i, b: B.Breakpoint :: 0 <= i < |entries| && RC.IsLastReport(entries, i) ==>
      (RC.RawClass(b) in entries[i].target.classList <==> entries[i].width >= RC.Threshold(DEFAULT_BREAKPOINTS, b).value)
  {
    DefaultBreakpointsAgree();
    RC.ObserveEntries(DEFAULT_BREAKPOINTS, entries);
    forall i, b: B.Breakpoint | 0 <= i < |entries| && RC.IsLastReport(entries, i)
      ensures RC.RawClass(b) in entries[i].target.classList <==> entries[i].width >= RC.Threshold(DEFAULT_BREAKPOINTS, b).value
    {
      RC.DefaultClassifyMembers(old(entries[i].target.classList), entries[i].width, b, "");
    }
  }
}
