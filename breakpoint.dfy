/** The breakpoint registry and the selector generator of `src/lib/breakpoint.ts`.

    The style engine's `css(...)` is a foreign call that hashes a style object
    into a class name; the functions here return the style object that would
    be handed to it.
 */
module Breakpoints {
  import opened JsObjects

  /** The five container tiers, smallest to largest. */
  datatype Breakpoint = XS | SM | MD | LG | XL {
    /** The enum member's string value: a class selector. */
    function Value(): (v: string)
      ensures |v| == 3 && v[0] == '.'
    {
      match this
      case XS => ".XS"
      case SM => ".SM"
      case MD => ".MD"
      case LG => ".LG"
      case XL => ".XL"
    }
  }

  /** `BREAKPOINTS`: every tier once, in ascending order. */
  const BREAKPOINTS: seq<Breakpoint> := [XS, SM, MD, LG, XL]

  /** The enum values of a list of tiers, in the same order. */
  function Values(bs: seq<Breakpoint>): (vs: seq<string>)
    ensures |vs| == |bs| && forall i :: 0 <= i < |bs| ==> vs[i] == bs[i].Value()
  {
    seq(|bs|, i requires 0 <= i < |bs| => bs[i].Value())
  }

  /** `isBreakpoint(value)`: `BREAKPOINTS.includes(value)`. */
  predicate IsBreakpoint(value: string)
    ensures IsBreakpoint(value) <==>
      value == ".XS" || value == ".SM" || value == ".MD" || value == ".LG" || value == ".XL"
  {
    assert Values(BREAKPOINTS) == [".XS", ".SM", ".MD", ".LG", ".XL"];
    value in Values(BREAKPOINTS)
  }

  /** `list.find(b => b === value)`: the first tier in `bs` whose value is `value`. */
  function FindBreakpoint(bs: seq<Breakpoint>, value: string): (r: Option<Breakpoint>)
    ensures r.Some? <==> value in Values(bs)
    ensures r.Some? ==> r.value in bs && r.value.Value() == value
  {
    if bs == [] then None
    else if bs[0].Value() == value then Some(bs[0])
    else
      assert Values(bs) == [bs[0].Value()] + Values(bs[1..]);
      FindBreakpoint(bs[1..], value)
  }

  /** The tier a string names, when `isBreakpoint` accepts it (the narrowing
      that the type guard `value is Breakpoint` performs). */
  function ParseBreakpoint(value: string): (r: Option<Breakpoint>)
    ensures r.Some? <==> IsBreakpoint(value)
    ensures r.Some? ==> r.value.Value() == value
  {
    FindBreakpoint(BREAKPOINTS, value)
  }

  /** Every tier is named by its own value and by no other tier's. */
  lemma ParseValue(b: Breakpoint)
    ensures ParseBreakpoint(b.Value()) == Some(b)
    ensures IsBreakpoint(b.Value())
  {
  }

  /** `BREAKPOINTS` lists every tier exactly once. */
  lemma BreakpointsComplete()
    ensures forall b: Breakpoint :: b in BREAKPOINTS
    ensures forall i, j :: 0 <= i < j < |BREAKPOINTS| ==> BREAKPOINTS[i] != BREAKPOINTS[j]
  {
    forall b: Breakpoint ensures b in BREAKPOINTS {
      match b
      case XS => assert BREAKPOINTS[0] == b;
      case SM => assert BREAKPOINTS[1] == b;
      case MD => assert BREAKPOINTS[2] == b;
      case LG => assert BREAKPOINTS[3] == b;
      case XL => assert BREAKPOINTS[4] == b;
    }
  }

  /** `containerBreakpointSelector(b)`: selects the container itself while it
      carries the tier's class. */
  function ContainerBreakpointSelector(b: Breakpoint): (r: string)
    ensures |r| == 4 && r[0] == '&' && r[1..] == b.Value()
  {
    "&" + b.Value()
  }

  /** `breakpointSelector(b)`: selects descendants of a container that carries
      the tier's class. */
  function BreakpointSelector(b: Breakpoint): (r: string)
    ensures |r| == 5 && r[..3] == b.Value() && r[3..] == " &"
  {
    b.Value() + " &"
  }

  /** Reads a self selector back to its tier. */
  function ContainerSelectorBreakpoint(s: string): Option<Breakpoint>
  {
    if |s| >= 1 && s[0] == '&' then ParseBreakpoint(s[1..]) else None
  }

  /** Reads a descendant selector back to its tier. */
  function SelectorBreakpoint(s: string): Option<Breakpoint>
  {
    if |s| >= 2 && s[|s| - 2..] == " &" then ParseBreakpoint(s[..|s| - 2]) else None
  }

  /** Both selector forms can be read back to the tier they were made from,
      so each form is injective over tiers. */
  lemma SelectorRoundTrip(b: Breakpoint)
    ensures ContainerSelectorBreakpoint(ContainerBreakpointSelector(b)) == Some(b)
    ensures SelectorBreakpoint(BreakpointSelector(b)) == Some(b)
  {
    ParseValue(b);
  }

  lemma SelectorInjective(b1: Breakpoint, b2: Breakpoint)
    ensures BreakpointSelector(b1) == BreakpointSelector(b2) ==> b1 == b2
    ensures ContainerBreakpointSelector(b1) == ContainerBreakpointSelector(b2) ==> b1 == b2
  {
    SelectorRoundTrip(b1);
    SelectorRoundTrip(b2);
  }

  /** No generated selector is itself a tier value, and the self and
      descendant forms never coincide. */
  lemma SelectorNotBreakpoint(b: Breakpoint, b': Breakpoint)
    ensures !IsBreakpoint(BreakpointSelector(b))
    ensures !IsBreakpoint(ContainerBreakpointSelector(b))
    ensures ContainerBreakpointSelector(b) != BreakpointSelector(b')
  {
    assert |BreakpointSelector(b)| == 5;
    assert ContainerBreakpointSelector(b)[0] == '&';
  }

  /** `containerStyle(b, style)`: the style attached to the container itself
      at tier `b`. */
  function ContainerStyle<V>(b: Breakpoint, style: V): (r: Object<V>)
    ensures |r| == 1 && ContainerSelectorBreakpoint(r[0].0) == Some(b) && r[0].1 == style
  {
    SelectorRoundTrip(b);
    [(ContainerBreakpointSelector(b), style)]
  }

  /** `childStyle(b, style)`: the style attached to descendants of a container
      at tier `b`. */
  function ChildStyle<V>(b: Breakpoint, style: V): (r: Object<V>)
    ensures |r| == 1 && SelectorBreakpoint(r[0].0) == Some(b) && r[0].1 == style
  {
    SelectorRoundTrip(b);
    [(BreakpointSelector(b), style)]
  }

  /** A value in a style object handed to `css`: a plain property value,
      `undefined`, or a nested rule block. */
  datatype CssValue = Text(text: string) | Undefined | Block(body: Object<CssValue>)

  /** An optional `display` argument as it lands in the style object. */
  function DisplayValue(value: Option<string>): CssValue
  {
    match value
    case Some(v) => Text(v)
    case None => Undefined
  }

  /** `isBreakpoint` applied to `display`'s first argument, which may be
      `undefined`: `undefined` is never in `BREAKPOINTS`. */
  predicate IsBreakpointArg(breakpointOrValue: Option<string>)
  {
    breakpointOrValue.Some? && IsBreakpoint(breakpointOrValue.value)
  }

  /** `display(breakpointOrValue, value?)`: with a tier, a `display` rule scoped
      to that tier's descendant selector; with anything else, including
      `undefined`, an unconditional `display` rule whose value is the first
      argument. */
  function Display(breakpointOrValue: Option<string>, value: Option<string>): (r: Object<CssValue>)
    ensures |r| == 1
    ensures IsBreakpointArg(breakpointOrValue) ==>
      SelectorBreakpoint(r[0].0) == ParseBreakpoint(breakpointOrValue.value) &&
      r[0].1 == Block([("display", DisplayValue(value))])
    ensures !IsBreakpointArg(breakpointOrValue) ==> r[0] == ("display", DisplayValue(breakpointOrValue))
  {
    match breakpointOrValue
    case None =>
      [("display", Undefined)]
    case Some(x) =>
      match ParseBreakpoint(x)
      case Some(b) =>
        SelectorRoundTrip(b);
        [(BreakpointSelector(b), Block([("display", DisplayValue(value))]))]
      case None =>
        [("display", Text(x))]
  }

  /** `d`: another name for `display`. */
  function D(breakpointOrValue: Option<string>, value: Option<string>): (r: Object<CssValue>)
    ensures r == Display(breakpointOrValue, value)
  {
    Display(breakpointOrValue, value)
  }

  /** Without a tier, the second argument of `display` is ignored; with a
      tier, the scoped rule never lands on the plain `display` property, so a
      scoped and an unconditional rule never overwrite each other. */
  lemma DisplayScopes(x: Option<string>, v1: Option<string>, v2: Option<string>, b: Breakpoint, v: Option<string>)
    ensures !IsBreakpointArg(x) ==> Display(x, v1) == Display(x, v2)
    ensures Display(Some(b.Value()), v)[0].0 != "display"
    ensures Display(Some(b.Value()), v)[0].0 != Display(x, v1)[0].0 || IsBreakpointArg(x)
  {
    ParseValue(b);
    assert |Display(Some(b.Value()), v)[0].0| == 5;
  }
}
