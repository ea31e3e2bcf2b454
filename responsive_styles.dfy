/** `responsiveCss` of `src/lib/responsiveStyles.ts`: a style object may mix
    ordinary style keys with tier keys; every tier key is moved to its
    descendant selector and everything else is copied through. */
module ResponsiveStyles {
  import opened JsObjects
  import opened Breakpoints
  import opened Utils

  /** The key a property of a responsive style object lands under. */
  function RewriteKey(rule: string): (k: string)
    ensures IsBreakpoint(rule) ==> SelectorBreakpoint(k) == ParseBreakpoint(rule)
    ensures !IsBreakpoint(rule) ==> k == rule
    ensures !IsBreakpoint(k)
  {
    match ParseBreakpoint(rule)
    case Some(b) =>
      SelectorRoundTrip(b);
      SelectorNotBreakpoint(b, b);
      BreakpointSelector(b)
    case None => rule
  }

  /** The iteratee of `processObjectStyles`: `result[key] = style`, with the
      key rewritten when it is a tier. */
  function RuleStep<V>(result: Object<V>, rule: string, style: V): Object<V>
  {
    Put(result, RewriteKey(rule), style)
  }

  /** The object `processObjectStyles` builds from `{}`. */
  function Rewritten<V>(styles: Object<V>): Object<V>
  {
    Fold(styles, RuleStep, [])
  }

  /** Reference definition: the value of the last property of `styles` whose
      key `land` maps to `k`. */
  function LastLanding<V>(styles: Object<V>, land: string -> string, k: string): Option<V>
  {
    if styles == [] then None
    else if land(styles[|styles| - 1].0) == k then Some(styles[|styles| - 1].1)
    else LastLanding(styles[..|styles| - 1], land, k)
  }

  /** Reading key `k` of the rewritten object gives the value of the last
      input property that lands on `k`: later properties overwrite earlier
      ones that collide after rewriting. */
  lemma {:induction false} GetRewritten<V>(styles: Object<V>, k: string)
    ensures Get(Rewritten(styles), k) == LastLanding(styles, RewriteKey, k)
  {
    if styles != [] {
      var n := |styles| - 1;
      GetRewritten(styles[..n], k);
      GetPut(Rewritten(styles[..n]), RewriteKey(styles[n].0), styles[n].1, k);
    }
  }

  /** `LastLanding` finds a value exactly when some property lands on `k`,
      and that value is the value of such a property. */
  lemma {:induction false} LastLandingSource<V>(styles: Object<V>, land: string -> string, k: string)
    ensures LastLanding(styles, land, k).Some? <==> exists j :: 0 <= j < |styles| && land(styles[j].0) == k
    ensures LastLanding(styles, land, k).Some? ==>
      exists j :: 0 <= j < |styles| && land(styles[j].0) == k && styles[j].1 == LastLanding(styles, land, k).value
  {
    if styles != [] {
      var n := |styles| - 1;
      var p := styles[..n];
      LastLandingSource(p, land, k);
      if land(styles[n].0) != k {
        forall j | 0 <= j < |styles| && land(styles[j].0) == k
          ensures 0 <= j < |p| && land(p[j].0) == k
        {
        }
        if LastLanding(p, land, k).Some? {
          var j :| 0 <= j < |p| && land(p[j].0) == k && p[j].1 == LastLanding(p, land, k).value;
          assert styles[j] == p[j];
        }
      }
    }
  }

  /** The property at position `i` survives under its landing key unless a
      later property lands on the same key. */
  lemma LastWins<V>(styles: Object<V>, i: nat)
    requires i < |styles|
    requires forall j :: i < j < |styles| ==> RewriteKey(styles[j].0) != RewriteKey(styles[i].0)
    ensures Get(Rewritten(styles), RewriteKey(styles[i].0)) == Some(styles[i].1)
  {
    GetRewritten(styles, RewriteKey(styles[i].0));
    LastLandingAt(styles, RewriteKey, i, RewriteKey(styles[i].0));
  }

  lemma {:induction false} LastLandingAt<V>(styles: Object<V>, land: string -> string, i: nat, k: string)
    requires i < |styles| && land(styles[i].0) == k
    requires forall j :: i < j < |styles| ==> land(styles[j].0) != k
    ensures LastLanding(styles, land, k) == Some(styles[i].1)
  {
    var n := |styles| - 1;
    if i < n {
      var p := styles[..n];
      assert p[i] == styles[i];
      forall j | i < j < |p|
        ensures land(p[j].0) != k
      {
        assert p[j] == styles[j];
      }
      LastLandingAt(p, land, i, k);
    }
  }

  /** A tier key is moved to its descendant selector with its value, unless a
      later property is literally keyed by that selector. */
  lemma RewrittenTierKey<V>(styles: Object<V>, i: nat, b: Breakpoint)
    requires WellFormed(styles) && i < |styles| && styles[i].0 == b.Value()
    requires forall j :: i < j < |styles| ==> styles[j].0 != BreakpointSelector(b)
    ensures Get(Rewritten(styles), BreakpointSelector(b)) == Some(styles[i].1)
  {
    ParseValue(b);
    forall j | i < j < |styles|
      ensures RewriteKey(styles[j].0) != RewriteKey(styles[i].0)
    {
      if IsBreakpoint(styles[j].0) {
        SelectorInjective(b, ParseBreakpoint(styles[j].0).value);
      }
    }
    LastWins(styles, i);
  }

  /** A key that is not a tier is copied with its value, unless a later tier
      key's descendant selector is that very key. */
  lemma RewrittenPlainKey<V>(styles: Object<V>, i: nat)
    requires WellFormed(styles) && i < |styles| && !IsBreakpoint(styles[i].0)
    requires forall j, b: Breakpoint :: i < j < |styles| && styles[j].0 == b.Value() ==> BreakpointSelector(b) != styles[i].0
    ensures Get(Rewritten(styles), styles[i].0) == Some(styles[i].1)
  {
    forall j | i < j < |styles|
      ensures RewriteKey(styles[j].0) != RewriteKey(styles[i].0)
    {
      if IsBreakpoint(styles[j].0) {
        var b := ParseBreakpoint(styles[j].0).value;
        assert styles[j].0 == b.Value();
      }
    }
    LastWins(styles, i);
  }

  /** The rewritten object is a well-formed object. */
  lemma {:induction false} RewrittenWellFormed<V>(styles: Object<V>)
    ensures WellFormed(Rewritten(styles))
  {
    if styles != [] {
      var n := |styles| - 1;
      RewrittenWellFormed(styles[..n]);
      PutWellFormed(Rewritten(styles[..n]), RewriteKey(styles[n].0), styles[n].1);
    }
  }

  /** Every output property comes from an input property: its key is where
      that property's key lands and its value is that property's value, not
      rewritten inside. Every landing key is present in the output. */
  lemma RewrittenOrigins<V>(styles: Object<V>)
    ensures forall i :: 0 <= i < |Rewritten(styles)| ==>
      exists j :: 0 <= j < |styles| && RewriteKey(styles[j].0) == Rewritten(styles)[i].0 && styles[j].1 == Rewritten(styles)[i].1
    ensures forall j :: 0 <= j < |styles| ==> HasKey(Rewritten(styles), RewriteKey(styles[j].0))
  {
    var r := Rewritten(styles);
    RewrittenWellFormed(styles);
    forall i | 0 <= i < |r|
      ensures exists j :: 0 <= j < |styles| && RewriteKey(styles[j].0) == r[i].0 && styles[j].1 == r[i].1
    {
      GetAt(r, i);
      GetRewritten(styles, r[i].0);
      LastLandingSource(styles, RewriteKey, r[i].0);
    }
    forall j | 0 <= j < |styles|
      ensures HasKey(r, RewriteKey(styles[j].0))
    {
      GetRewritten(styles, RewriteKey(styles[j].0));
      LastLandingSource(styles, RewriteKey, RewriteKey(styles[j].0));
    }
  }

  /** An object without tier keys comes back unchanged. */
  lemma {:induction false} RewrittenNoTiers<V>(styles: Object<V>)
    requires WellFormed(styles)
    requires forall i :: 0 <= i < |styles| ==> !IsBreakpoint(styles[i].0)
    ensures Rewritten(styles) == styles
  {
    if styles != [] {
      var n := |styles| - 1;
      var p := styles[..n];
      assert WellFormed(p);
      RewrittenNoTiers(p);
      assert !HasKey(p, styles[n].0);
      PutFresh(p, styles[n].0, styles[n].1);
      assert p + [styles[n]] == styles;
    }
  }

  /** Rewriting twice is rewriting once: no output key is a tier. */
  lemma RewrittenIdempotent<V>(styles: Object<V>)
    ensures Rewritten(Rewritten(styles)) == Rewritten(styles)
  {
    var r := Rewritten(styles);
    RewrittenWellFormed(styles);
    RewrittenOrigins(styles);
    forall i | 0 <= i < |r| ensures !IsBreakpoint(r[i].0) {
      var j :| 0 <= j < |styles| && RewriteKey(styles[j].0) == r[i].0 && styles[j].1 == r[i].1;
    }
    RewrittenNoTiers(r);
  }

  /** `processObjectStyles(objectStyles)`: transforms the object into a fresh
      accumulator with the rewriting iteratee. */
  method ProcessObjectStyles<V>(objectStyles: Object<V>) returns (result: Dict<V>)
    requires WellFormed(objectStyles)
    ensures fresh(result)
    ensures result.entries == Rewritten(objectStyles)
  {
    var acc := new Dict<V>();
    result := Transform(objectStyles, RuleStep, acc);
  }

  /** The argument of `responsiveCss`: one style object or an array of them. */
  datatype Interpolation<V> = Single(obj: Object<V>) | Many(objs: seq<Object<V>>)

  ghost predicate ObjectsWellFormed<V>(styles: Interpolation<V>) {
    match styles
    case Single(o) => WellFormed(o)
    case Many(os) => forall i :: 0 <= i < |os| ==> WellFormed(os[i])
  }

  /** `responsiveCss(styles)`: the argument it hands to `css`. An array is
      processed element by element, keeping its length and order. */
  method ResponsiveCss<V>(styles: Interpolation<V>) returns (arg: Interpolation<V>)
    requires ObjectsWellFormed(styles)
    ensures styles.Single? ==> arg == Single(Rewritten(styles.obj))
    ensures styles.Many? ==> arg.Many? && |arg.objs| == |styles.objs|
    ensures styles.Many? ==> forall i :: 0 <= i < |styles.objs| ==> arg.objs[i] == Rewritten(styles.objs[i])
  {
    match styles
    case Single(o) =>
      var r := ProcessObjectStyles(o);
      arg := Single(r.entries);
    case Many(os) =>
      var out: seq<Object<V>> := [];
      for i := 0 to |os|
        invariant |out| == i
        invariant forall k :: 0 <= k < i ==> out[k] == Rewritten(os[k])
      {
        var r := ProcessObjectStyles(os[i]);
        out := out + [r.entries];
      }
      arg := Many(out);
  }
}
