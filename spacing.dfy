/** `spacing` of `src/lib/spacing.ts`: up to four spacing values become a
    space-separated list of `calc(v * var(--cem))` terms, `auto` passing
    through and falsy arguments (`undefined`, `0`) dropped. Multipliers are
    integers here.
 */
module Spacing {
  import opened JsObjects

  /** `CEM_VAR_NAME` of `src/components/ContainerRemRoot.tsx`. */
  const CEM_VAR_NAME: string := "cem"

  /** `SpacingValue`: a numeric multiplier or `"auto"`. */
  datatype SpacingValue = Num(n: int) | Auto

  /** `Boolean(v)` for an optional argument: `undefined` and `0` are falsy. */
  predicate Truthy(v: Option<SpacingValue>)
  {
    match v
    case None => false
    case Some(Auto) => true
    case Some(Num(n)) => n != 0
  }

  /** `.filter(Boolean)`: the truthy arguments, in their original order. */
  function Survivors(vs: seq<Option<SpacingValue>>): (r: seq<SpacingValue>)
    ensures |r| <= |vs|
    ensures forall i :: 0 <= i < |r| ==> Truthy(Some(r[i]))
  {
    if vs == [] then []
    else (if Truthy(vs[0]) then [vs[0].value] else []) + Survivors(vs[1..])
  }

  /** Filtering distributes over concatenation, so it keeps relative order. */
  lemma {:induction false} SurvivorsAppend(a: seq<Option<SpacingValue>>, b: seq<Option<SpacingValue>>)
    ensures Survivors(a + b) == Survivors(a) + Survivors(b)
  {
    if a == [] {
      assert a + b == b;
    } else {
      assert (a + b)[1..] == a[1..] + b;
      SurvivorsAppend(a[1..], b);
    }
  }

  predicate IsDigit(c: char) { '0' <= c <= '9' }

  function DigitChar(d: nat): (c: char)
    requires d < 10
    ensures IsDigit(c)
  {
    (48 + d) as char
  }

  function DigitValue(c: char): nat
    requires IsDigit(c)
  {
    c as int - 48
  }

  /** The decimal digits of `n`, without leading zeros. */
  function NatToString(n: nat): (s: string)
    ensures |s| >= 1 && forall i :: 0 <= i < |s| ==> IsDigit(s[i])
  {
    if n < 10 then [DigitChar(n)] else NatToString(n / 10) + [DigitChar(n % 10)]
  }

  /** An integer as a template string renders it: decimal, with `-` when negative. */
  function IntToString(n: int): (s: string)
    ensures |s| >= 1 && (s[0] == '-' <==> n < 0)
  {
    if n < 0 then "-" + NatToString(-n) else NatToString(n)
  }

  /** Reads a string of decimal digits. */
  function ParseNat(s: string): nat
    requires forall i :: 0 <= i < |s| ==> IsDigit(s[i])
  {
    if s == [] then 0 else ParseNat(s[..|s| - 1]) * 10 + DigitValue(s[|s| - 1])
  }

  lemma {:induction false} NatRoundTrip(n: nat)
    ensures ParseNat(NatToString(n)) == n
  {
    var s := NatToString(n);
    if n >= 10 {
      assert s[..|s| - 1] == NatToString(n / 10);
      NatRoundTrip(n / 10);
    }
  }

  /** The length of the longest all-digit prefix of `s`. */
  function DigitsPrefix(s: string): (k: nat)
    ensures k <= |s|
    ensures forall i :: 0 <= i < k ==> IsDigit(s[i])
  {
    if s == [] || !IsDigit(s[0]) then 0 else 1 + DigitsPrefix(s[1..])
  }

  lemma {:induction false} DigitsPrefixOf(d: string, rest: string)
    requires forall i :: 0 <= i < |d| ==> IsDigit(d[i])
    requires rest == [] || !IsDigit(rest[0])
    ensures DigitsPrefix(d + rest) == |d|
  {
    if d != [] {
      assert (d + rest)[1..] == d[1..] + rest;
      DigitsPrefixOf(d[1..], rest);
    }
  }

  /** What follows the multiplier inside a `calc(...)` term. */
  const CALC_SUFFIX: string := " * var(--" + CEM_VAR_NAME + "))"

  /** The `.map(...)` callback: `auto` verbatim, a number as a `calc` term
      scaled by the container rem variable. */
  function Part(v: SpacingValue): (p: string)
    ensures |p| >= 4
  {
    match v
    case Auto => "auto"
    case Num(n) => "calc(" + IntToString(n) + CALC_SUFFIX
  }

  /** `.join(sep)`: the parts with `sep` between neighbours and nowhere else. */
  function Join(parts: seq<string>, sep: string): string
  {
    if |parts| == 0 then ""
    else if |parts| == 1 then parts[0]
    else parts[0] + sep + Join(parts[1..], sep)
  }

  /** A term neither starts nor ends with a space. */
  lemma PartEnds(v: SpacingValue)
    ensures Part(v)[0] != ' ' && Part(v)[|Part(v)| - 1] != ' '
  {
    match v
    case Auto =>
    case Num(n) =>
      var p := Part(v);
      assert p[0] == 'c';
      assert p[|p| - 1] == CALC_SUFFIX[|CALC_SUFFIX| - 1] == ')';
  }

  /** A join of non-empty parts starts with the first part's first character
      and ends with the last part's last character. */
  lemma {:induction false} JoinEnds(parts: seq<string>, sep: string)
    requires |parts| > 0 && forall i :: 0 <= i < |parts| ==> parts[i] != ""
    ensures |Join(parts, sep)| > 0
    ensures Join(parts, sep)[0] == parts[0][0]
    ensures Join(parts, sep)[|Join(parts, sep)| - 1] == parts[|parts| - 1][|parts[|parts| - 1]| - 1]
  {
    if |parts| > 1 {
      JoinEnds(parts[1..], sep);
      assert parts[1..][|parts| - 2] == parts[|parts| - 1];
    }
  }

  function Parts(vs: seq<SpacingValue>): (ps: seq<string>)
    ensures |ps| == |vs| && forall i :: 0 <= i < |vs| ==> ps[i] == Part(vs[i])
  {
    seq(|vs|, i requires 0 <= i < |vs| => Part(vs[i]))
  }

  /** `.map(...).join(" ")` over the surviving values: empty exactly when
      there are none, and never starting or ending with a space. */
  function Render(vs: seq<SpacingValue>): (r: string)
    ensures r == "" <==> vs == []
    ensures r != "" ==> r[0] != ' ' && r[|r| - 1] != ' '
  {
    if vs == [] then Join(Parts(vs), " ")
    else
      JoinEnds(Parts(vs), " ");
      PartEnds(vs[0]);
      PartEnds(vs[|vs| - 1]);
      Join(Parts(vs), " ")
  }

  /** `spacing(v1, v2?, v3?, v4?)`. The result is empty exactly when every
      argument is falsy, and it never starts or ends with a space. */
  function Spacing(v1: SpacingValue, v2: Option<SpacingValue>, v3: Option<SpacingValue>, v4: Option<SpacingValue>): (r: string)
    ensures r == "" <==> !Truthy(Some(v1)) && !Truthy(v2) && !Truthy(v3) && !Truthy(v4)
    ensures r != "" ==> r[0] != ' ' && r[|r| - 1] != ' '
  {
    var args := [Some(v1), v2, v3, v4];
    SurvivorsEmpty(args);
    assert args[0] == Some(v1) && args[1] == v2 && args[2] == v3 && args[3] == v4;
    Render(Survivors(args))
  }

  lemma {:induction false} SurvivorsEmpty(vs: seq<Option<SpacingValue>>)
    ensures Survivors(vs) == [] <==> forall i :: 0 <= i < |vs| ==> !Truthy(vs[i])
  {
    if vs != [] {
      SurvivorsEmpty(vs[1..]);
      assert forall i :: 1 <= i < |vs| ==> vs[i] == vs[1..][i - 1];
    }
  }

  /** Reads one term from the front of `s`: the value and what follows it. */
  function ParsePart(s: string): (r: Option<(SpacingValue, string)>)
    ensures r.Some? ==> |r.value.1| < |s|
  {
    if |s| >= 4 && s[..4] == "auto" then Some((Auto, s[4..]))
    else if |s| >= 5 && s[..5] == "calc(" then ParseCalcBody(s[5..])
    else None
  }

  /** Reads the longest run of decimal digits from the front of `u`. */
  function ParseUnsigned(u: string): (r: Option<(nat, string)>)
    ensures r.Some? ==> |r.value.1| < |u|
  {
    var k := DigitsPrefix(u);
    if k == 0 then None else Some((ParseNat(u[..k]), u[k..]))
  }

  /** Reads an optionally negative decimal integer from the front of `t`. */
  function ParseInt(t: string): (r: Option<(int, string)>)
    ensures r.Some? ==> |r.value.1| < |t|
  {
    if |t| > 0 && t[0] == '-' then
      match ParseUnsigned(t[1..])
      case None => None
      case Some((m, rest)) => Some((-(m as int), rest))
    else
      match ParseUnsigned(t)
      case None => None
      case Some((m, rest)) => Some((m as int, rest))
  }

  /** Reads the multiplier and the closing text of a `calc` term. */
  function ParseCalcBody(t: string): (r: Option<(SpacingValue, string)>)
    ensures r.Some? ==> |r.value.1| < |t|
  {
    match ParseInt(t)
    case None => None
    case Some((n, rest)) =>
      if |rest| >= |CALC_SUFFIX| && rest[..|CALC_SUFFIX|] == CALC_SUFFIX then
        Some((Num(n), rest[|CALC_SUFFIX|..]))
      else None
  }

  /** Reads one or more space-separated terms. */
  function ParseTerms(s: string): Option<seq<SpacingValue>>
    decreases |s|
  {
    match ParsePart(s)
    case None => None
    case Some((v, rest)) =>
      if rest == "" then Some([v])
      else if rest[0] == ' ' then
        match ParseTerms(rest[1..])
        case None => None
        case Some(vs) => Some([v] + vs)
      else None
  }

  /** Reads a whole `spacing` result back into its values. */
  function ParseSpacing(s: string): Option<seq<SpacingValue>>
  {
    if s == "" then Some([]) else ParseTerms(s)
  }

  /** The digits of a natural number are read back up to the first non-digit. */
  lemma UnsignedRoundTrip(m: nat, rest: string)
    requires rest == [] || !IsDigit(rest[0])
    ensures ParseUnsigned(NatToString(m) + rest) == Some((m, rest))
  {
    var d := NatToString(m);
    DigitsPrefixOf(d, rest);
    assert (d + rest)[..|d|] == d;
    assert (d + rest)[|d|..] == rest;
    NatRoundTrip(m);
  }

  /** An integer is read back up to the first non-digit. */
  lemma IntRoundTrip(n: int, rest: string)
    requires rest == [] || !IsDigit(rest[0])
    ensures ParseInt(IntToString(n) + rest) == Some((n, rest))
  {
    if n < 0 {
      NegativeRoundTrip(-n, rest);
      assert IntToString(n) == "-" + NatToString(-n);
    } else {
      NonNegativeRoundTrip(n, rest);
    }
  }

  lemma NegativeRoundTrip(m: nat, rest: string)
    requires rest == [] || !IsDigit(rest[0])
    ensures ParseInt("-" + NatToString(m) + rest) == Some((-(m as int), rest))
  {
    var t := "-" + NatToString(m) + rest;
    assert t[0] == '-';
    assert t[1..] == NatToString(m) + rest;
    UnsignedRoundTrip(m, rest);
  }

  lemma NonNegativeRoundTrip(m: nat, rest: string)
    requires rest == [] || !IsDigit(rest[0])
    ensures ParseInt(NatToString(m) + rest) == Some((m, rest))
  {
    var t := NatToString(m) + rest;
    assert t[0] == NatToString(m)[0];
    assert t[0] != '-';
    UnsignedRoundTrip(m, rest);
  }

  /** A multiplier followed by the closing text is read back. */
  lemma CalcBodyRoundTrip(n: int, rest: string)
    ensures ParseCalcBody(IntToString(n) + CALC_SUFFIX + rest) == Some((Num(n), rest))
  {
    var tail := CALC_SUFFIX + rest;
    assert IntToString(n) + CALC_SUFFIX + rest == IntToString(n) + tail;
    assert tail[0] == ' ';
    IntRoundTrip(n, tail);
    assert tail[..|CALC_SUFFIX|] == CALC_SUFFIX;
    assert tail[|CALC_SUFFIX|..] == rest;
  }

  /** A term is read back from the front of a string. */
  lemma PartRoundTrip(v: SpacingValue, rest: string)
    ensures ParsePart(Part(v) + rest) == Some((v, rest))
  {
    match v
    case Auto => AutoRoundTrip(rest);
    case Num(n) => CalcRoundTrip(n, rest);
  }

  lemma AutoRoundTrip(rest: string)
    ensures ParsePart("auto" + rest) == Some((Auto, rest))
  {
    var s := "auto" + rest;
    assert s[..4] == "auto";
    assert s[4..] == rest;
  }

  lemma CalcRoundTrip(n: int, rest: string)
    ensures ParsePart("calc(" + IntToString(n) + CALC_SUFFIX + rest) == Some((Num(n), rest))
  {
    var body := IntToString(n) + CALC_SUFFIX + rest;
    var s := "calc(" + IntToString(n) + CALC_SUFFIX + rest;
    assert s == "calc(" + body;
    assert s[..5] == "calc(";
    assert s[3] == 'c';
    assert s[..4] != "auto";
    assert s[5..] == body;
    CalcBodyRoundTrip(n, rest);
  }

  /** One more term in front of a space-separated list is read back first. */
  lemma TermsCons(v: SpacingValue, tail: string, vs: seq<SpacingValue>)
    requires tail != "" && ParseTerms(tail) == Some(vs)
    ensures ParseTerms(Part(v) + " " + tail) == Some([v] + vs)
  {
    var rest := " " + tail;
    assert Part(v) + " " + tail == Part(v) + rest;
    PartRoundTrip(v, rest);
    assert rest[0] == ' ' && rest[1..] == tail;
  }

  /** A lone term is read back as a one-element list. */
  lemma TermsSingle(v: SpacingValue)
    ensures ParseTerms(Part(v)) == Some([v])
  {
    PartRoundTrip(v, "");
    assert Part(v) + "" == Part(v);
  }

  /** Reading back a `spacing` result recovers exactly the truthy arguments,
      in their original order, so there are at most four terms. */
  lemma SpacingReadBack(v1: SpacingValue, v2: Option<SpacingValue>, v3: Option<SpacingValue>, v4: Option<SpacingValue>)
    ensures ParseSpacing(Spacing(v1, v2, v3, v4)) == Some(Survivors([Some(v1), v2, v3, v4]))
    ensures |Survivors([Some(v1), v2, v3, v4])| <= 4
  {
    SpacingRoundTrip(Survivors([Some(v1), v2, v3, v4]));
  }

  /** A single term renders as itself. */
  lemma RenderSingle(v: SpacingValue)
    ensures Render([v]) == Part(v)
  {
  }

  /** More than one term: the first, one space, then the rest. */
  lemma RenderCons(vs: seq<SpacingValue>)
    requires |vs| > 1
    ensures Render(vs) == Part(vs[0]) + " " + Render(vs[1..])
  {
    assert Parts(vs)[1..] == Parts(vs[1..]);
  }

  /** Joining the terms with single spaces can be read back term by term. */
  lemma {:induction false} SpacingRoundTrip(vs: seq<SpacingValue>)
    ensures ParseSpacing(Render(vs)) == Some(vs)
  {
    if |vs| == 1 {
      RenderSingle(vs[0]);
      TermsSingle(vs[0]);
      assert vs == [vs[0]];
    } else if |vs| > 1 {
      RenderCons(vs);
      SpacingRoundTrip(vs[1..]);
      TermsCons(vs[0], Render(vs[1..]), vs[1..]);
      assert [vs[0]] + vs[1..] == vs;
    }
  }

  /** A single falsy argument yields the empty string. */
  lemma SpacingZero()
    ensures Spacing(Num(0), None, None, None) == ""
  {
  }

  /** `auto` passes through verbatim. */
  lemma SpacingAuto()
    ensures Spacing(Auto, None, None, None) == "auto"
  {
    var args := [Some(Auto), None, None, None];
    assert Survivors(args[3..]) == [];
    assert args[1..][1..] == args[2..] && args[2..][1..] == args[3..];
    assert Survivors(args) == [Auto];
    assert Parts([Auto]) == ["auto"];
  }

  /** A number becomes a `calc` term scaled by the container rem variable. */
  lemma SpacingNumber()
    ensures Spacing(Num(2), None, None, None) == "calc(2 * var(--cem))"
  {
    var args := [Some(Num(2)), None, None, None];
    assert Survivors(args[3..]) == [];
    assert args[1..][1..] == args[2..] && args[2..][1..] == args[3..];
    assert Survivors(args) == [Num(2)];
    assert DigitChar(2) == '2';
    assert IntToString(2) == "2";
    assert CALC_SUFFIX == " * var(--cem))";
    assert Part(Num(2)) == "calc(" + "2" + " * var(--cem))";
    assert "calc(" + "2" + " * var(--cem))" == "calc(2 * var(--cem))";
    assert Parts([Num(2)]) == ["calc(2 * var(--cem))"];
  }

  /** A falsy argument between two truthy ones leaves no trace; the others
      are joined by one space. */
  lemma SpacingSkipsFalsy()
    ensures Spacing(Num(-1), Some(Num(0)), None, Some(Auto)) == "calc(-1 * var(--cem)) auto"
  {
    SkipsFalsySurvivors();
    SkipsFalsyRender();
  }

  lemma SkipsFalsySurvivors()
    ensures Survivors([Some(Num(-1)), Some(Num(0)), None, Some(Auto)]) == [Num(-1), Auto]
  {
    var args := [Some(Num(-1)), Some(Num(0)), None, Some(Auto)];
    assert Survivors(args[3..]) == [Auto];
    assert args[1..][1..] == args[2..] && args[2..][1..] == args[3..];
  }

  /** Two terms are joined by one space. */
  lemma RenderPair(a: SpacingValue, b: SpacingValue)
    ensures Render([a, b]) == Part(a) + " " + Part(b)
  {
    RenderCons([a, b]);
    assert [a, b][1..] == [b];
    RenderSingle(b);
  }

  lemma MinusOneTerm()
    ensures Part(Num(-1)) == "calc(-1 * var(--cem))"
  {
    assert DigitChar(1) == '1';
    assert IntToString(-1) == "-1";
    assert CALC_SUFFIX == " * var(--cem))";
    assert Part(Num(-1)) == "calc(" + "-1" + " * var(--cem))";
    assert "calc(" + "-1" + " * var(--cem))" == "calc(-1 * var(--cem))";
  }

  lemma SkipsFalsyRender()
    ensures Render([Num(-1), Auto]) == "calc(-1 * var(--cem)) auto"
  {
    RenderPair(Num(-1), Auto);
    MinusOneTerm();
    assert "calc(-1 * var(--cem))" + " " + "auto" == "calc(-1 * var(--cem)) auto";
  }
}
