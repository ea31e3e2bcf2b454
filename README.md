# Responsive containers, modelled in Dafny

The repository is a small React library of "responsive containers". A single resize
observer watches container elements. Every time it reports a width, the container's
class list is brought up to date with one raw class per size tier whose minimum width
is reached. The tiers are `XS` (0), `SM` (384), `MD` (576), `LG` (768) and `XL` (960).

Style helpers produce CSS rules keyed by tier selectors:
- `.MD &` for descendants of a container at tier MD;
- `&.MD` for the container itself.

The cascade then applies those rules.

`responsiveCss` is a front end to the CSS-in-JS `css` call. It moves every tier key
of a style object to its descendant selector. `spacing` builds a space-separated
list of `calc(v * var(--cem))` terms.

The project models each of these pieces:

- `objects.dfy` (`JsObjects`): a JavaScript object is an ordered list of key/value
  pairs with distinct keys. Property assignment replaces the value of an existing
  key in place, or appends a new key. `Dict` is an object that is mutated in place.
- `breakpoint.dfy` (`Breakpoints`): the tier enum, `BREAKPOINTS`, `isBreakpoint`, the
  two selector generators, `containerStyle`/`childStyle` and `display`/`d`. Each
  `css(...)` call is modelled by the style object it receives.
- `responsive_container.dfy` (`ResponsiveContainer`): `DEFAULT_BREAKPOINTS`, the raw
  class of a tier, and the observer callback as imperative code. Elements are objects
  whose class set is updated in place, tier by tier and entry by entry. The callback
  is proved against `Classify`, which says what a class list should be after a width
  is reported.
- `legacy_container.dfy` (`LegacyResponsiveContainer`): the older copy in
  `src/ResponsiveContainer.tsx`. Each of its definitions is proved to agree with the
  newer one.
- `utils.dfy` (`Utils`): `keys`, and `transform` as a loop over the keys that mutates
  the accumulator. It is proved against the fold `Fold`.
- `responsive_styles.dfy` (`ResponsiveStyles`): `responsiveCss` and its inner
  `processObjectStyles`. The proofs cover where each key lands, the case where the
  last of two colliding keys wins, idempotence, and element-wise array handling.
- `legacy_styles.dfy` (`LegacyResponsiveStyles`): `useResponsiveContainerStyles`,
  which finds tiers by scanning the list and builds its result with `reduce`. It is
  proved to build exactly what `responsiveCss` builds.
- `spacing.dfy` (`Spacing`): `spacing`, with a reader `ParseSpacing` for its output.
  The round trip through the reader shows which arguments survive, in what order,
  and how they are separated.

## Model

| member | source | states |
|---|---|---|
| JsObjects.GetPut | src/lib/responsiveStyles.ts:46-48 | after `o[k] = v`, reading `k` gives `v` and every other key reads as before |
| JsObjects.PutWellFormed | src/lib/responsiveStyles.ts:46-48 | assignment never creates a duplicate key |
| JsObjects.Dict.Set | src/lib/responsiveStyles.ts:46-48 | `result[key] = style` updates the accumulator object in place, replacing an existing key or appending a new one |
| Breakpoints.IsBreakpoint | src/lib/breakpoint.ts:23-24 | `isBreakpoint(v)` holds iff `v` is one of ".XS", ".SM", ".MD", ".LG", ".XL" |
| Breakpoints.BreakpointsComplete | src/lib/breakpoint.ts:12-18 | `BREAKPOINTS` holds every tier, with no duplicates |
| Breakpoints.ParseBreakpoint | src/lib/breakpoint.ts:23-24 | the type-guard narrowing: a tier is found iff `isBreakpoint` accepts the string, and its value is that string |
| Breakpoints.FindBreakpoint | src/responsiveStyles.ts:39 | `BREAKPOINTS.find(b => b === rule)` finds a tier iff the rule equals one of the list's values, and the tier it finds has that value |
| Breakpoints.ContainerBreakpointSelector | src/lib/breakpoint.ts:29-30 | the self selector is `&` followed by the tier value, four characters long |
| Breakpoints.BreakpointSelector | src/lib/breakpoint.ts:35-36 | the descendant selector is the tier value followed by " &" |
| Breakpoints.SelectorRoundTrip | src/lib/breakpoint.ts:29-36 | both selector forms can be read back to the tier they were made from |
| Breakpoints.SelectorInjective | src/lib/breakpoint.ts:29-36 | different tiers get different selectors, in both forms |
| Breakpoints.SelectorNotBreakpoint | src/lib/breakpoint.ts:23-36 | no generated selector is itself a tier value, and the self and descendant forms never coincide |
| Breakpoints.ContainerStyle | src/lib/breakpoint.ts:41-44 | the style object has one rule, keyed by the self selector of `b`, holding `style` |
| Breakpoints.ChildStyle | src/lib/breakpoint.ts:49-52 | the style object has one rule, keyed by the descendant selector of `b`, holding `style` |
| Breakpoints.Display | src/lib/breakpoint.ts:68-78 | with a tier: one rule at that tier's descendant selector whose block sets `display` to the second argument; otherwise, including an `undefined` first argument: the unconditional rule `display: first argument`, which is `undefined` in that case |
| Breakpoints.DisplayScopes | src/lib/breakpoint.ts:68-78 | for a non-tier the second argument is ignored; a scoped rule never lands on the plain `display` key |
| Breakpoints.D | src/lib/breakpoint.ts:79 | `d` is `display` |
| ResponsiveContainer.DefaultBreakpointsAscending | src/components/ResponsiveContainer.tsx:11-17 | the default table lists the five tiers in `BREAKPOINTS` order, once each, with minimum widths from 0 strictly ascending |
| ResponsiveContainer.DefaultThresholds | src/components/ResponsiveContainer.tsx:11-17 | XS=0, SM=384, MD=576, LG=768, XL=960 |
| ResponsiveContainer.ThresholdFound | src/components/ResponsiveContainer.tsx:34 | the lookup `DEFAULT_BREAKPOINTS[breakpoint]` finds a width iff the table lists the tier, and the width is the one listed with it |
| ResponsiveContainer.RawClassValue | src/components/ResponsiveContainer.tsx:24-30 | the raw class of a tier is its value with the leading "." sliced off |
| ResponsiveContainer.RawClassInjective | src/components/ResponsiveContainer.tsx:24-30 | different tiers have different raw classes |
| ResponsiveContainer.ClassifyMembers | src/components/ResponsiveContainer.tsx:32-43 | after classification a listed tier's class is present iff the width reaches its minimum; other classes are present iff they were before |
| ResponsiveContainer.TierStep | src/components/ResponsiveContainer.tsx:33 | one more table entry adds exactly its own tier class to the table's tier classes |
| ResponsiveContainer.ActiveStep | src/components/ResponsiveContainer.tsx:33-37 | one more table entry adds its tier class to the active classes exactly when the width reaches its minimum |
| ResponsiveContainer.ClassifyStep | src/components/ResponsiveContainer.tsx:37-41 | one tier's add/remove step extends the classification of the tiers before it by that tier |
| ResponsiveContainer.ClassifyOverwrite | src/components/ResponsiveContainer.tsx:37-41 | only the latest width matters, and applying one width twice equals applying it once |
| ResponsiveContainer.DefaultClassifyMembers | src/components/ResponsiveContainer.tsx:11-41 | with the default table: tier class iff width reaches its threshold; classes other than the five tier names untouched; XS always present |
| ResponsiveContainer.DefaultClassifyNested | src/components/ResponsiveContainer.tsx:11-37 | a present tier class implies the class of every tier with a lower or equal threshold |
| ResponsiveContainer.DefaultTierClasses | src/components/ResponsiveContainer.tsx:11-30 | the default table's tier classes are exactly XS, SM, MD, LG and XL |
| ResponsiveContainer.DefaultActiveClasses | src/components/ResponsiveContainer.tsx:11-37 | at a given width the active classes are XS, plus each larger tier from its minimum width on |
| ResponsiveContainer.Element.constructor | src/components/ResponsiveContainer.tsx:38-40 | an element starts with the given class list |
| ResponsiveContainer.ApplyWidth | src/components/ResponsiveContainer.tsx:33-42 | the per-entry loop over the table leaves the target's class list equal to `Classify` of its old list and the width |
| ResponsiveContainer.ReplayThenClassify | src/components/ResponsiveContainer.tsx:32-43 | whatever earlier entries did to an element, classifying it afterwards gives the same result |
| ResponsiveContainer.ReplayLast | src/components/ResponsiveContainer.tsx:32-43 | after a batch, an element is classified by the width of the last entry that reports it |
| ResponsiveContainer.ObserveEntries | src/components/ResponsiveContainer.tsx:32-43 | processing every entry in order leaves each target classified by its last reported width; only the entries' targets are modified |
| ResponsiveContainer.ResponsiveObserver | src/components/ResponsiveContainer.tsx:23-44 | the callback over the default table: tier class iff width reaches its threshold, every other class unchanged |
| ResponsiveContainer.LastReport | src/components/ResponsiveContainer.tsx:32 | every entry has a last entry reporting the same target |
| ResponsiveContainer.WidthScenario | src/components/ResponsiveContainer.tsx:11-42 | widths 0, 400, 700, 500 give {XS}, {XS,SM}, {XS,SM,MD}, {XS,SM} |
| ResponsiveContainer.ResizeScenario | src/components/ResponsiveContainer.tsx:23-44 | successive callbacks on one container at widths 0, 400, 700, 500 leave those four class lists |
| LegacyResponsiveContainer.IsBreakpoint | src/ResponsiveContainer.tsx:14-26 | accepts exactly what `isBreakpoint` of src/lib/breakpoint.ts accepts, i.e. the five tier values |
| LegacyResponsiveContainer.ContainerBreakpoint | src/ResponsiveContainer.tsx:32-33 | `&` followed by the tier value, read back to the same tier |
| LegacyResponsiveContainer.BreakpointSelector | src/ResponsiveContainer.tsx:38 | the tier value followed by " &", read back to the same tier |
| LegacyResponsiveContainer.ContainerStyle | src/ResponsiveContainer.tsx:44-47 | the same style object as the newer `containerStyle` |
| LegacyResponsiveContainer.ChildStyle | src/ResponsiveContainer.tsx:52-55 | the same style object as the newer `childStyle` |
| LegacyResponsiveContainer.Display | src/ResponsiveContainer.tsx:61-71 | a descendant-scoped rule for a tier, an unconditional rule otherwise (also for `undefined`); equal to the newer `display` |
| LegacyResponsiveContainer.DefaultBreakpointsAgree | src/ResponsiveContainer.tsx:73-79 | the same table as the newer one: one entry per tier, from 0 strictly ascending |
| LegacyResponsiveContainer.ObserverCallback | src/ResponsiveContainer.tsx:90-110 | the memoised callback: for each target's last entry, tier class iff width reaches its threshold |
| Utils.Keys | src/lib/utils.ts:4-5 | the object's own keys in order, exactly the keys it has |
| Utils.Transform | src/lib/utils.ts:11-19 | the iteratee is applied once per key in key order, with `object[key]`, mutating the accumulator; the very accumulator passed in is returned |
| Utils.FoldNoOp | src/lib/utils.ts:16-19 | with an iteratee that changes nothing, the result is the initial accumulator |
| Utils.FoldAppend | src/lib/utils.ts:16-19 | the fold over a longer object continues where the fold over its prefix stopped |
| ResponsiveStyles.RewriteKey | src/lib/responsiveStyles.ts:45-48 | a tier key moves to its descendant selector; any other key stays; no landing key is a tier |
| ResponsiveStyles.GetRewritten | src/lib/responsiveStyles.ts:42-52 | each output key holds the value of the last input property landing on it |
| ResponsiveStyles.LastLandingSource | src/lib/responsiveStyles.ts:42-52 | an output value exists iff some input property lands there, and comes from such a property |
| ResponsiveStyles.LastWins | src/lib/responsiveStyles.ts:42-51 | a property survives under its landing key unless a later one lands on the same key |
| ResponsiveStyles.RewrittenTierKey | src/lib/responsiveStyles.ts:45-46 | a tier key's value is found under its descendant selector |
| ResponsiveStyles.RewrittenPlainKey | src/lib/responsiveStyles.ts:47-48 | a non-tier key is copied with its value |
| ResponsiveStyles.RewrittenWellFormed | src/lib/responsiveStyles.ts:42-52 | the output has no duplicate keys |
| ResponsiveStyles.RewrittenOrigins | src/lib/responsiveStyles.ts:44-51 | every output property is some input property's landing key with its unmodified value, and every landing key is present |
| ResponsiveStyles.RewrittenNoTiers | src/lib/responsiveStyles.ts:42-52 | an object without tier keys comes back equal |
| ResponsiveStyles.RewrittenIdempotent | src/lib/responsiveStyles.ts:45-48 | rewriting twice is rewriting once |
| ResponsiveStyles.ProcessObjectStyles | src/lib/responsiveStyles.ts:39-52 | `transform` into a fresh `{}` builds the rewritten object |
| ResponsiveStyles.ResponsiveCss | src/lib/responsiveStyles.ts:54-58 | an object is rewritten; an array is rewritten element by element, keeping length and order |
| LegacyResponsiveStyles.ProcessObjectStyles | src/responsiveStyles.ts:34-50 | the scan-based `reduce` builds exactly the object the newer `processObjectStyles` builds |
| LegacyResponsiveStyles.UseResponsiveContainerStyles | src/responsiveStyles.ts:31-57 | an object is rewritten; an array element by element, keeping length and order; the same as `responsiveCss` |
| Spacing.Survivors | src/lib/spacing.ts:15-16 | `.filter(Boolean)` keeps at most as many values as it gets, and only truthy ones |
| Spacing.SurvivorsAppend | src/lib/spacing.ts:16 | filtering distributes over concatenation, so survivors keep their relative order |
| Spacing.SurvivorsEmpty | src/lib/spacing.ts:16 | nothing survives iff every argument is falsy |
| Spacing.PartRoundTrip | src/lib/spacing.ts:17-19 | each term (`auto` verbatim, a number as `calc(n * var(--cem))`) can be read back from the front of a string |
| Spacing.IntRoundTrip | src/lib/spacing.ts:18 | the decimal rendering of an integer multiplier, sign included, reads back to the same integer |
| Spacing.Render | src/lib/spacing.ts:17-20 | the joined terms are empty iff there are none, and never start or end with a space |
| Spacing.RenderCons | src/lib/spacing.ts:20 | with more than one term: the first term, exactly one space, then the rest |
| Spacing.SpacingRoundTrip | src/lib/spacing.ts:17-20 | terms joined by single spaces read back term by term to the same values |
| Spacing.Spacing | src/lib/spacing.ts:9-20 | empty iff every argument is falsy; never starts or ends with a space |
| Spacing.SpacingReadBack | src/lib/spacing.ts:9-20 | the result reads back to exactly the truthy arguments in their original order, so it has at most four terms |
| Spacing.SpacingZero | src/lib/spacing.ts:16 | `spacing(0)` is the empty string |
| Spacing.SpacingAuto | src/lib/spacing.ts:18 | `spacing("auto")` is `auto` |
| Spacing.SpacingNumber | src/lib/spacing.ts:18 | `spacing(2)` is `calc(2 * var(--cem))` |
| Spacing.SpacingSkipsFalsy | src/lib/spacing.ts:15-20 | `spacing(-1, 0, undefined, "auto")` is `calc(-1 * var(--cem)) auto` |

## Left out

- The CSS-in-JS engine (`css`, `cx`): class-name hashing and stylesheet injection are foreign calls. Every helper returns the style object it would hand to `css`, not a class name.
- The browser cascade and selector specificity, which decide how the generated rules apply.
- The resize-observer lifecycle: `observe`, `unobserve`, `disconnect`, `useMemo`, `useEffect` and the ref callback. These are host-runtime scheduling. The model takes a batch of entries as input.
- React components and markup: `ResponsiveContainer` rendering, `src/App.tsx` and `src/components/ContainerRemRoot.tsx`. Only the constant `CEM_VAR_NAME` ("cem") is used.
- Widths are natural numbers. Fractional and negative content widths, and floating-point comparison, are not modelled.
- The class list is a set, so the order of class tokens in `classList` is not modelled.
- JavaScript key enumeration puts integer-like keys first. Objects here keep plain insertion order.
- `src/utils.ts` is not part of this model. It is the same `Object.keys` cast as `keys` in `src/lib/utils.ts`.
- Utils.Transform: the iteratee is a pure function from the accumulator's contents, a key and a value to the new contents. An iteratee with other side effects, or one that keeps a reference to the accumulator, is not captured.
- Spacing.Spacing: multipliers are unbounded integers rendered with their exact decimal digits. JavaScript numbers are doubles: integers beyond ±2^53 are held inexactly and printed as the shortest digits that read back to the same double (for example, 2^60 prints as 1152921504606847000), and the model does not capture that rounding. Its round-trip results therefore hold for JavaScript only within ±2^53. Fractional multipliers, `NaN` and the exponent notation used for magnitudes of 10^21 and above are not modelled either.
- The type-level parts (`ResponsiveInterpolation`, `ObjectInterpolation`, the `RefCallback` type) have no runtime behaviour. Style values are a type parameter.
