/** The shared resize-observer callback of `src/components/ResponsiveContainer.tsx`.

    For every reported entry and every tier of the threshold table, the
    callback adds the tier's raw class to the target's class list when the
    reported width reaches the tier's minimum width, and removes it otherwise.
    The style rules made by `Breakpoints` then match through the cascade.
 */
module ResponsiveContainer {
  import opened Breakpoints

  /** A threshold table: tiers with their minimum widths, in key order. */
  type Thresholds = seq<(Breakpoint, nat)>

  /** `DEFAULT_BREAKPOINTS`. */
  const DEFAULT_BREAKPOINTS: Thresholds := [(XS, 0), (SM, 384), (MD, 576), (LG, 768), (XL, 960)]

  /** A table is an object literal: no tier is listed twice. */
  ghost predicate DistinctTiers(table: Thresholds) {
    forall i, j :: 0 <= i < j < |table| ==> table[i].0 != table[j].0
  }

  /** `table[b]`: the minimum width of tier `b`, if the table lists it. */
  function Threshold(table: Thresholds, b: Breakpoint): JsObjects.Option<nat>
  {
    if table == [] then JsObjects.None
    else if table[0].0 == b then JsObjects.Some(table[0].1)
    else Threshold(table[1..], b)
  }

  /** The lookup finds a width exactly when the table lists the tier, and the
      width it finds is listed with that tier. */
  lemma {:induction false} ThresholdFound(table: Thresholds, b: Breakpoint)
    ensures Threshold(table, b).Some? <==> exists i :: 0 <= i < |table| && table[i].0 == b
    ensures Threshold(table, b).Some? ==> exists i :: 0 <= i < |table| && table[i] == (b, Threshold(table, b).value)
  {
    if table != [] && table[0].0 != b {
      var t := table[1..];
      ThresholdFound(t, b);
      if Threshold(t, b).Some? {
        var i :| 0 <= i < |t| && t[i] == (b, Threshold(t, b).value);
        assert table[i + 1] == t[i];
      }
      forall i | 0 <= i < |table| && table[i].0 == b
        ensures 0 <= i - 1 < |t| && t[i - 1].0 == b
      {
      }
    }
  }

  /** `DEFAULT_BREAKPOINTS` lists the five tiers in `BREAKPOINTS` order, with
      minimum widths that start at 0 and strictly ascend. */
  lemma DefaultBreakpointsAscending()
    ensures DistinctTiers(DEFAULT_BREAKPOINTS)
    ensures |DEFAULT_BREAKPOINTS| == |BREAKPOINTS|
    ensures forall i :: 0 <= i < |BREAKPOINTS| ==> DEFAULT_BREAKPOINTS[i].0 == BREAKPOINTS[i]
    ensures DEFAULT_BREAKPOINTS[0].1 == 0
    ensures forall i, j :: 0 <= i < j < |DEFAULT_BREAKPOINTS| ==> DEFAULT_BREAKPOINTS[i].1 < DEFAULT_BREAKPOINTS[j].1
  {
  }

  /** The minimum width of each tier in the default table. */
  lemma DefaultThresholds()
    ensures Threshold(DEFAULT_BREAKPOINTS, XS) == JsObjects.Some(0)
    ensures Threshold(DEFAULT_BREAKPOINTS, SM) == JsObjects.Some(384)
    ensures Threshold(DEFAULT_BREAKPOINTS, MD) == JsObjects.Some(576)
    ensures Threshold(DEFAULT_BREAKPOINTS, LG) == JsObjects.Some(768)
    ensures Threshold(DEFAULT_BREAKPOINTS, XL) == JsObjects.Some(960)
  {
  }

  /** `rawBreakpointClasses[b]`: the entry of the lookup table for tier `b`. */
  function RawClass(b: Breakpoint): string
  {
    match b
    case XS => "XS"
    case SM => "SM"
    case MD => "MD"
    case LG => "LG"
    case XL => "XL"
  }

  /** Each entry of the lookup table is the tier's value with its leading `.`
      sliced off. */
  lemma RawClassValue(b: Breakpoint)
    ensures RawClass(b) == b.Value()[1..]
    ensures "." + RawClass(b) == b.Value()
  {
  }

  /** Different tiers have different raw classes. */
  lemma RawClassInjective(b1: Breakpoint, b2: Breakpoint)
    ensures RawClass(b1) == RawClass(b2) ==> b1 == b2
  {
  }

  /** The raw classes of every tier in the table. */
  function TierClasses(table: Thresholds): set<string>
  {
    set i | 0 <= i < |table| :: RawClass(table[i].0)
  }

  /** The raw classes of the tiers whose minimum width `width` reaches. */
  function ActiveClasses(table: Thresholds, width: nat): set<string>
  {
    set i | 0 <= i < |table| && width >= table[i].1 :: RawClass(table[i].0)
  }

  /** The class list an element should carry after reporting `width`: the
      tier classes are exactly the active ones, every other class is kept. */
  function Classify(table: Thresholds, classes: set<string>, width: nat): set<string>
  {
    (classes - TierClasses(table)) + ActiveClasses(table, width)
  }

  /** Membership in the classified list: a tier listed in the table is
      present iff the width reaches its minimum width; a class that is not a
      tier class of the table is present iff it was present before. */
  lemma ClassifyMembers(table: Thresholds, classes: set<string>, width: nat, i: nat, x: string)
    requires DistinctTiers(table) && i < |table|
    ensures RawClass(table[i].0) in Classify(table, classes, width) <==> width >= table[i].1
    ensures x !in TierClasses(table) ==> (x in Classify(table, classes, width) <==> x in classes)
  {
    forall j | 0 <= j < |table| && RawClass(table[j].0) == RawClass(table[i].0)
      ensures j == i
    {
      RawClassInjective(table[j].0, table[i].0);
    }
  }

  /** One more tier of the table contributes exactly its own class. */
  lemma TierStep(table: Thresholds, k: nat)
    requires k < |table|
    ensures TierClasses(table[..k + 1]) == TierClasses(table[..k]) + {RawClass(table[k].0)}
  {
    var p, q := table[..k + 1], table[..k];
    forall c | c in TierClasses(p)
      ensures c in TierClasses(q) + {RawClass(table[k].0)}
    {
      var i :| 0 <= i < |p| && RawClass(p[i].0) == c;
      if i < k {
        assert q[i] == p[i];
      }
    }
    forall c | c in TierClasses(q)
      ensures c in TierClasses(p)
    {
      var i :| 0 <= i < |q| && RawClass(q[i].0) == c;
      assert p[i] == q[i];
    }
    assert p[k] == table[k];
  }

  /** One more tier of the table contributes its class exactly when `width`
      reaches its minimum width. */
  lemma ActiveStep(table: Thresholds, k: nat, width: nat)
    requires k < |table|
    ensures ActiveClasses(table[..k + 1], width) ==
      ActiveClasses(table[..k], width) + (if width >= table[k].1 then {RawClass(table[k].0)} else {})
  {
    var p, q := table[..k + 1], table[..k];
    forall c | c in ActiveClasses(p, width)
      ensures c in ActiveClasses(q, width) + (if width >= table[k].1 then {RawClass(table[k].0)} else {})
    {
      var i :| 0 <= i < |p| && width >= p[i].1 && RawClass(p[i].0) == c;
      if i < k {
        assert q[i] == p[i];
      }
    }
    forall c | c in ActiveClasses(q, width)
      ensures c in ActiveClasses(p, width)
    {
      var i :| 0 <= i < |q| && width >= q[i].1 && RawClass(q[i].0) == c;
      assert p[i] == q[i];
    }
    assert p[k] == table[k];
  }

  /** Processing one more tier of the table adds or removes that tier's
      class, exactly as the loop body does. */
  lemma ClassifyStep(table: Thresholds, k: nat, classes: set<string>, width: nat)
    requires DistinctTiers(table) && k < |table|
    ensures Classify(table[..k + 1], classes, width) ==
      if width >= table[k].1 then Classify(table[..k], classes, width) + {RawClass(table[k].0)}
      else Classify(table[..k], classes, width) - {RawClass(table[k].0)}
  {
    TierStep(table, k);
    ActiveStep(table, k, width);
    var q := table[..k];
    var c := RawClass(table[k].0);
    assert c !in ActiveClasses(q, width) by {
      forall j | 0 <= j < |q|
        ensures RawClass(q[j].0) != c
      {
        RawClassInjective(table[j].0, table[k].0);
      }
    }
  }

  /** Only the latest width matters: classifying again overrides the earlier
      classification, and classifying twice with one width is classifying once. */
  lemma ClassifyOverwrite(table: Thresholds, classes: set<string>, w1: nat, w2: nat)
    ensures Classify(table, Classify(table, classes, w1), w2) == Classify(table, classes, w2)
    ensures Classify(table, Classify(table, classes, w1), w1) == Classify(table, classes, w1)
  {
    assert ActiveClasses(table, w1) <= TierClasses(table);
  }

  /** The five raw tier classes of the default table. */
  const TIER_CLASSES: set<string> := {"XS", "SM", "MD", "LG", "XL"}

  /** With the default table: each tier's class is present iff the width
      reaches its minimum width, classes other than the five tier classes are
      untouched, and the XS class is always present. */
  lemma DefaultClassifyMembers(classes: set<string>, width: nat, b: Breakpoint, x: string)
    ensures RawClass(b) in Classify(DEFAULT_BREAKPOINTS, classes, width) <==>
      width >= Threshold(DEFAULT_BREAKPOINTS, b).value
    ensures x !in TIER_CLASSES ==>
      (x in Classify(DEFAULT_BREAKPOINTS, classes, width) <==> x in classes)
    ensures RawClass(XS) in Classify(DEFAULT_BREAKPOINTS, classes, width)
  {
    DefaultBreakpointsAscending();
    var i: nat := match b case XS => 0 case SM => 1 case MD => 2 case LG => 3 case XL => 4;
    assert DEFAULT_BREAKPOINTS[i].0 == b;
    ClassifyMembers(DEFAULT_BREAKPOINTS, classes, width, i, x);
    ClassifyMembers(DEFAULT_BREAKPOINTS, classes, width, 0, x);
  }

  /** Tier classes are nested: a present tier class implies the class of
      every tier with a lower minimum width. */
  lemma DefaultClassifyNested(classes: set<string>, width: nat, lo: Breakpoint, hi: Breakpoint)
    requires Threshold(DEFAULT_BREAKPOINTS, lo).value <= Threshold(DEFAULT_BREAKPOINTS, hi).value
    requires RawClass(hi) in Classify(DEFAULT_BREAKPOINTS, classes, width)
    ensures RawClass(lo) in Classify(DEFAULT_BREAKPOINTS, classes, width)
  {
    DefaultClassifyMembers(classes, width, hi, "");
    DefaultClassifyMembers(classes, width, lo, "");
  }

  /** A DOM element whose class list the callback updates in place. */
  class Element {
    var classList: set<string>

    constructor (classes: set<string>)
      ensures classList == classes
    {
      classList := classes;
    }
  }

  /** A resize-observer entry: the observed element and its content width. */
  datatype ResizeEntry = ResizeEntry(target: Element, width: nat)

  /** The inner loop of the callback for one entry: for every tier in table
      order, add its raw class when `width >= minWidth`, remove it otherwise. */
  method ApplyWidth(table: Thresholds, target: Element, width: nat)
    requires DistinctTiers(table)
    modifies target
    ensures target.classList == Classify(table, old(target.classList), width)
  {
    for k := 0 to |table|
      invariant target.classList == Classify(table[..k], old(target.classList), width)
    {
      var (breakpoint, minWidth) := table[k];
      ClassifyStep(table, k, old(target.classList), width);
      if width >= minWidth {
        target.classList := target.classList + {RawClass(breakpoint)};
      } else {
        target.classList := target.classList - {RawClass(breakpoint)};
      }
    }
    assert table[..|table|] == table;
  }

  /** No later entry of the batch reports the target of entry `i`. */
  predicate IsLastReport(entries: seq<ResizeEntry>, i: nat)
    requires i < |entries|
  {
    forall j :: i < j < |entries| ==> entries[j].target != entries[i].target
  }

  /** The class list of `e` after the entries are processed in order,
      starting from `classes`. */
  function Replay(table: Thresholds, entries: seq<ResizeEntry>, e: Element, classes: set<string>): set<string>
  {
    if entries == [] then classes
    else
      var before := Replay(table, entries[..|entries| - 1], e, classes);
      if entries[|entries| - 1].target == e then Classify(table, before, entries[|entries| - 1].width) else before
  }

  /** Whatever happened before, classifying afterwards gives the same result. */
  lemma {:induction false} ReplayThenClassify(table: Thresholds, entries: seq<ResizeEntry>, e: Element, classes: set<string>, width: nat)
    ensures Classify(table, Replay(table, entries, e, classes), width) == Classify(table, classes, width)
  {
    if entries != [] {
      var n := |entries| - 1;
      ReplayThenClassify(table, entries[..n], e, classes, width);
      if entries[n].target == e {
        ClassifyOverwrite(table, Replay(table, entries[..n], e, classes), entries[n].width, width);
      }
    }
  }

  /** After a batch, an element's class list is classified by the width of
      the last entry that reports it. */
  lemma {:induction false} ReplayLast(table: Thresholds, entries: seq<ResizeEntry>, i: nat, classes: set<string>)
    requires i < |entries| && IsLastReport(entries, i)
    ensures Replay(table, entries, entries[i].target, classes) == Classify(table, classes, entries[i].width)
  {
    var n := |entries| - 1;
    if i == n {
      ReplayThenClassify(table, entries[..n], entries[i].target, classes, entries[i].width);
    } else {
      assert entries[..n][i] == entries[i];
      ReplayLast(table, entries[..n], i, classes);
    }
  }

  /** The callback body for the table it closes over: every entry, in order,
      reconciles its own target's class list; nothing else is modified. When
      a target is reported more than once, its last entry decides. */
  method ObserveEntries(table: Thresholds, entries: seq<ResizeEntry>)
    requires DistinctTiers(table)
    modifies set i | 0 <= i < |entries| :: entries[i].target
    ensures forall i :: 0 <= i < |entries| && IsLastReport(entries, i) ==>
      entries[i].target.classList == Classify(table, old(entries[i].target.classList), entries[i].width)
  {
    for i := 0 to |entries|
      invariant forall j :: 0 <= j < |entries| ==>
        entries[j].target.classList == Replay(table, entries[..i], entries[j].target, old(entries[j].target.classList))
    {
      assert entries[..i + 1][..i] == entries[..i];
      ApplyWidth(table, entries[i].target, entries[i].width);
    }
    assert entries[..|entries|] == entries;
    forall i | 0 <= i < |entries| && IsLastReport(entries, i)
      ensures entries[i].target.classList == Classify(table, old(entries[i].target.classList), entries[i].width)
    {
      ReplayLast(table, entries, i, old(entries[i].target.classList));
    }
  }

  /** `responsiveObserver`'s callback: `ObserveEntries` over `DEFAULT_BREAKPOINTS`.
      For the last entry of each target, the target holds tier `b`'s raw
      class iff the width reaches `b`'s minimum width, and holds any other
      class iff it held it before. */
  method ResponsiveObserver(entries: seq<ResizeEntry>)
    modifies set i | 0 <= i < |entries| :: entries[i].target
    ensures forall i :: 0 <= i < |entries| && IsLastReport(entries, i) ==>
      entries[i].target.classList == Classify(DEFAULT_BREAKPOINTS, old(entries[i].target.classList), entries[i].width)
    ensures forall i, b: Breakpoint :: 0 <= i < |entries| && IsLastReport(entries, i) ==>
      (RawClass(b) in entries[i].target.classList <==> entries[i].width >= Threshold(DEFAULT_BREAKPOINTS, b).value)
    ensures forall i, x :: 0 <= i < |entries| && x !in TIER_CLASSES ==>
      (x in entries[i].target.classList <==> x in old(entries[i].target.classList))
  {
    DefaultBreakpointsAscending();
    ObserveEntries(DEFAULT_BREAKPOINTS, entries);
    forall i, b: Breakpoint | 0 <= i < |entries| && IsLastReport(entries, i)
      ensures RawClass(b) in entries[i].target.classList <==> entries[i].width >= Threshold(DEFAULT_BREAKPOINTS, b).value
    {
      DefaultClassifyMembers(old(entries[i].target.classList), entries[i].width, b, "");
    }
    forall i, x | 0 <= i < |entries| && x !in TIER_CLASSES
      ensures x in entries[i].target.classList <==> x in old(entries[i].target.classList)
    {
      var last := LastReport(entries, i);
      DefaultClassifyMembers(old(entries[last].target.classList), entries[last].width, XS, x);
    }
  }

  /** The position of the last entry reporting the same target as entry `i`. */
  function LastReport(entries: seq<ResizeEntry>, i: nat): (last: nat)
    requires i < |entries|
    ensures i <= last < |entries| && entries[last].target == entries[i].target
    ensures IsLastReport(entries, last)
    decreases |entries| - i
  {
    if exists j :: i < j < |entries| && entries[j].target == entries[i].target then
      var j :| i < j < |entries| && entries[j].target == entries[i].target;
      LastReport(entries, j)
    else i
  }

  /** The default table's tier classes are the five raw class names. */
  lemma DefaultTierClasses()
    ensures TierClasses(DEFAULT_BREAKPOINTS) == TIER_CLASSES
  {
    var t := DEFAULT_BREAKPOINTS;
    forall c | c in TierClasses(t)
      ensures c in TIER_CLASSES
    {
      var i :| 0 <= i < |t| && RawClass(t[i].0) == c;
    }
    assert RawClass(t[0].0) == "XS" && RawClass(t[1].0) == "SM" && RawClass(t[2].0) == "MD";
    assert RawClass(t[3].0) == "LG" && RawClass(t[4].0) == "XL";
  }

  /** The default table's active classes at a width: XS always, and each
      larger tier from its minimum width on. */
  lemma DefaultActiveClasses(width: nat)
    ensures ActiveClasses(DEFAULT_BREAKPOINTS, width) ==
      {"XS"} + (if width >= 384 then {"SM"} else {}) + (if width >= 576 then {"MD"} else {})
      + (if width >= 768 then {"LG"} else {}) + (if width >= 960 then {"XL"} else {})
  {
    var t := DEFAULT_BREAKPOINTS;
    var expected := {"XS"} + (if width >= 384 then {"SM"} else {}) + (if width >= 576 then {"MD"} else {})
      + (if width >= 768 then {"LG"} else {}) + (if width >= 960 then {"XL"} else {});
    forall c | c in ActiveClasses(t, width)
      ensures c in expected
    {
      var i :| 0 <= i < |t| && width >= t[i].1 && RawClass(t[i].0) == c;
    }
    assert RawClass(t[0].0) == "XS" && RawClass(t[1].0) == "SM" && RawClass(t[2].0) == "MD";
    assert RawClass(t[3].0) == "LG" && RawClass(t[4].0) == "XL";
  }

  /** The tier classes of a container reported at widths 0, 400, 700 and 500
      in turn are {XS}, {XS, SM}, {XS, SM, MD} and {XS, SM}. */
  lemma WidthScenario()
    ensures Classify(DEFAULT_BREAKPOINTS, {}, 0) == {"XS"}
    ensures Classify(DEFAULT_BREAKPOINTS, {"XS"}, 400) == {"XS", "SM"}
    ensures Classify(DEFAULT_BREAKPOINTS, {"XS", "SM"}, 700) == {"XS", "SM", "MD"}
    ensures Classify(DEFAULT_BREAKPOINTS, {"XS", "SM", "MD"}, 500) == {"XS", "SM"}
  {
    DefaultTierClasses();
    DefaultActiveClasses(0);
    DefaultActiveClasses(400);
    DefaultActiveClasses(700);
    DefaultActiveClasses(500);
  }

  /** A container reported at widths 0, 400, 700 and 500 by successive
      callbacks; returns its class list after each. */
  method ResizeScenario() returns (after: seq<set<string>>)
    ensures after == [{"XS"}, {"XS", "SM"}, {"XS", "SM", "MD"}, {"XS", "SM"}]
  {
    WidthScenario();
    var container := new Element({});
    after := [];
    var widths: seq<nat> := [0, 400, 700, 500];
    for k := 0 to |widths|
      invariant |after| == k
      invariant forall m :: 0 <= m < k ==> after[m] == [{"XS"}, {"XS", "SM"}, {"XS", "SM", "MD"}, {"XS", "SM"}][m]
      invariant container.classList == if k == 0 then {} else after[k - 1]
    {
      var batch := [ResizeEntry(container, widths[k])];
      assert IsLastReport(batch, 0);
      ResponsiveObserver(batch);
      after := after + [container.classList];
    }
  }
}
