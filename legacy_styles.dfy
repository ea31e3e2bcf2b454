/** `useResponsiveContainerStyles` of `src/responsiveStyles.ts`: the older
    variant of `responsiveCss`, which recognises tier keys by scanning the
    tier list for an equal value and builds its result with `reduce` from `{}`.
    It is proved to produce exactly what `responsiveCss` produces.
 */
module LegacyResponsiveStyles {
  import opened JsObjects
  import B = Breakpoints
  import opened Utils
  import RS = ResponsiveStyles
  import L = LegacyResponsiveContainer

  /** `processObjectStyles` of this file: for each key in order, a key found
      in `BREAKPOINTS` is assigned under `` `${breakpoint} &` ``, any other key
      under itself, each with `objectStyles[key]`. */
  method ProcessObjectStyles<V>(objectStyles: Object<V>) returns (result: Dict<V>)
    requires WellFormed(objectStyles)
    ensures fresh(result)
    ensures result.entries == RS.Rewritten(objectStyles)
  {
    assert L.BREAKPOINTS == B.BREAKPOINTS;
    result := new Dict<V>();
    var rules := Keys(objectStyles);
    for i := 0 to |rules|
      invariant result.entries == RS.Rewritten(objectStyles[..i])
    {
      var rule := rules[i];
      GetAt(objectStyles, i);
      assert objectStyles[..i + 1][..i] == objectStyles[..i];
      match B.FindBreakpoint(L.BREAKPOINTS, rule) {
        case Some(breakpoint) =>
          result.Set(breakpoint.Value() + " &", Get(objectStyles, breakpoint.Value()).value);
        case None =>
          result.Set(rule, Get(objectStyles, rule).value);
      }
    }
    assert objectStyles[..|rules|] == objectStyles;
  }

  /** `useResponsiveContainerStyles(styles)`: the argument it hands to `css`.
      An array is mapped element by element, keeping its length and order,
      and for every input the result is the one `responsiveCss` builds. */
  method UseResponsiveContainerStyles<V>(styles: RS.Interpolation<V>) returns (arg: RS.Interpolation<V>)
    requires RS.ObjectsWellFormed(styles)
    ensures styles.Single? ==> arg == RS.Single(RS.Rewritten(styles.obj))
    ensures styles.Many? ==> arg.Many? && |arg.objs| == |styles.objs|
    ensures styles.Many? ==> forall i :: 0 <= i < |styles.objs| ==> arg.objs[i] == RS.Rewritten(styles.objs[i])
  {
    match styles
    case Single(o) =>
      var r := ProcessObjectStyles(o);
      arg := RS.Single(r.entries);
    case Many(os) =>
      var out: seq<Object<V>> := [];
      for i := 0 to |os|
        invariant |out| == i
        invariant forall k :: 0 <= k < i ==> out[k] == RS.Rewritten(os[k])
      {
        var r := ProcessObjectStyles(os[i]);
        out := out + [r.entries];
      }
      arg := RS.Many(out);
  }
}
