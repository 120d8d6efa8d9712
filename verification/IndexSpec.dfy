/** Index specifiers: which indices of one dimension to print, and the texts they are given as. */
module IndexSpec {
  import opened Text

  /** One range of a specifier: `n`, `n-m`, `n-` or `-m`, with the numerals as typed. */
  datatype Range =
    | Exactly(n: string)
    | Between(lo: string, hi: string)
    | From(lo: string)
    | UpTo(hi: string)
  {
    predicate WellFormed() {
      match this
      case Exactly(n) => IsNumeral(n)
      case Between(lo, hi) => IsNumeral(lo) && IsNumeral(hi)
      case From(lo) => IsNumeral(lo)
      case UpTo(hi) => IsNumeral(hi)
    }

    function ToText(): string {
      match this
      case Exactly(n) => n
      case Between(lo, hi) => lo + "-" + hi
      case From(lo) => lo + "-"
      case UpTo(hi) => "-" + hi
    }

    /** The indices the range stands for according to the help text. */
    predicate Denotes(val: nat)
      requires WellFormed()
    {
      match this
      case Exactly(n) => val == NumValue(n)
      case Between(lo, hi) => NumValue(lo) <= val <= NumValue(hi)
      case From(lo) => NumValue(lo) <= val
      case UpTo(hi) => val <= NumValue(hi)
    }

    /** A number or lower bound that a `size_t` cannot hold, or that is the one value used as a
        mark for "no number", does not limit anything. */
    predicate Unlimited(val: nat)
      requires WellFormed()
    {
      match this
      case Exactly(n) => NumValue(n) >= SIZE_MAX
      case Between(lo, hi) => NumValue(lo) > SIZE_MAX && val <= NumValue(hi)
      case From(lo) => NumValue(lo) > SIZE_MAX
      case UpTo(_) => false
    }

    predicate Fits()
      requires WellFormed()
    {
      match this
      case Exactly(n) => NumValue(n) < SIZE_MAX
      case Between(lo, _) => NumValue(lo) <= SIZE_MAX
      case From(lo) => NumValue(lo) <= SIZE_MAX
      case UpTo(_) => true
    }
  }

  // ----- what the printer does with the texts -----

  function NumberOr(s: string, default: nat): nat {
    var n := LexicalCast(s);
    if n.Some? then n.value else default
  }

  /** The printer has room for two bounds: at most one dash. */
  predicate Supported(range: string) {
    |Split(range, '-')| <= 2
  }

  predicate Accepts(range: string, val: nat)
    requires Supported(range)
  {
    var bounds := Split(range, '-');
    if |bounds| == 1 then
      var n := NumberOr(bounds[0], SIZE_MAX);
      n == val || n == SIZE_MAX
    else
      NumberOr(bounds[0], 0) <= val <= NumberOr(bounds[1], SIZE_MAX)
  }

  predicate SupportedSpec(spec: string) {
    var ranges := Split(spec, '.');
    forall i :: 0 <= i < |ranges| ==> Supported(ranges[i])
  }

  predicate Belongs(spec: string, val: nat)
    requires SupportedSpec(spec)
  {
    var ranges := Split(spec, '.');
    exists i :: 0 <= i < |ranges| && Accepts(ranges[i], val)
  }

  /** Every dimension that has a specifier must accept its index. */
  predicate SupportedSelector(selector: string) {
    var specs := Split(selector, ',');
    forall i :: 0 <= i < |specs| ==> SupportedSpec(specs[i])
  }

  predicate Selects(selector: string, path: seq<nat>)
    requires SupportedSelector(selector)
  {
    selector == "" ||
    var specs := Split(selector, ',');
    forall i :: 0 <= i < |specs| && i < |path| ==> Belongs(specs[i], path[i])
  }

  // ----- single ranges -----

  lemma NumeralHasOnlyDigits(s: string, c: char)
    requires IsNumeral(s) && !IsDigit(c)
    ensures c !in s
  {
  }

  lemma NumeralRead(s: string, default: nat)
    requires IsNumeral(s)
    ensures NumberOr(s, default) == if NumValue(s) <= SIZE_MAX then NumValue(s) else default
    ensures Split(s, '-') == [s]
  {
    NumeralHasOnlyDigits(s, '+');
    NumeralHasOnlyDigits(s, '-');
    SplitWord(s, '-');
    assert s[0] in s;
  }

  lemma TwoBounds(lo: string, hi: string)
    requires '-' !in lo && '-' !in hi
    ensures Split(lo + "-" + hi, '-') == [lo, hi]
  {
    SplitAtSeparator(lo, hi, '-');
    SplitWord(hi, '-');
  }

  lemma BetweenRead(lo: string, hi: string, val: nat)
    requires IsNumeral(lo) && IsNumeral(hi) && val <= SIZE_MAX
    ensures var r := Between(lo, hi);
            Supported(r.ToText()) && (Accepts(r.ToText(), val) <==> r.Denotes(val) || r.Unlimited(val))
  {
    NumeralRead(lo, 0);
    NumeralRead(hi, SIZE_MAX);
    NumeralHasOnlyDigits(lo, '-');
    NumeralHasOnlyDigits(hi, '-');
    TwoBounds(lo, hi);
  }

  lemma FromRead(lo: string, val: nat)
    requires IsNumeral(lo) && val <= SIZE_MAX
    ensures var r := From(lo);
            Supported(r.ToText()) && (Accepts(r.ToText(), val) <==> r.Denotes(val) || r.Unlimited(val))
  {
    NumeralRead(lo, 0);
    NumeralHasOnlyDigits(lo, '-');
    assert lo + "-" == lo + "-" + "";
    TwoBounds(lo, "");
  }

  lemma UpToRead(hi: string, val: nat)
    requires IsNumeral(hi) && val <= SIZE_MAX
    ensures var r := UpTo(hi);
            Supported(r.ToText()) && (Accepts(r.ToText(), val) <==> r.Denotes(val) || r.Unlimited(val))
  {
    NumeralRead(hi, SIZE_MAX);
    NumeralHasOnlyDigits(hi, '-');
    assert "-" + hi == "" + "-" + hi;
    TwoBounds("", hi);
  }

  /** What the printer makes of a well-formed range: its meaning, except that limits it cannot
      hold fall away. */
  lemma RangeRead(r: Range, val: nat)
    requires r.WellFormed() && val <= SIZE_MAX
    ensures Supported(r.ToText())
    ensures Accepts(r.ToText(), val) <==> r.Denotes(val) || r.Unlimited(val)
  {
    match r
    case Exactly(n) => NumeralRead(n, SIZE_MAX);
    case Between(lo, hi) => BetweenRead(lo, hi, val);
    case From(lo) => FromRead(lo, val);
    case UpTo(hi) => UpToRead(hi, val);
  }

  /** The printer gives a range its documented meaning for every index exactly when the range's
      number or lower bound fits. */
  lemma RangeMeetsGrammar(r: Range)
    requires r.WellFormed()
    ensures Supported(r.ToText())
    ensures (forall val: nat :: val <= SIZE_MAX ==> (Accepts(r.ToText(), val) <==> r.Denotes(val))) <==> r.Fits()
  {
    RangeRead(r, 0);
    forall val: nat | val <= SIZE_MAX
      ensures Accepts(r.ToText(), val) <==> r.Denotes(val) || r.Unlimited(val)
    {
      RangeRead(r, val);
    }
    if !r.Fits() {
      assert Accepts(r.ToText(), 0) && !r.Denotes(0);
    }
  }

  // ----- specifiers of one dimension -----

  predicate WellFormedSpec(spec: seq<Range>) {
    forall i :: 0 <= i < |spec| ==> spec[i].WellFormed()
  }

  function RangeTexts(spec: seq<Range>): (r: seq<string>)
    ensures |r| == |spec| && forall i :: 0 <= i < |spec| ==> r[i] == spec[i].ToText()
  {
    seq(|spec|, i requires 0 <= i < |spec| => spec[i].ToText())
  }

  function SpecText(spec: seq<Range>): string {
    if spec == [] then "" else Join(RangeTexts(spec), '.')
  }

  /** The documented meaning; an empty specifier takes every index. */
  ghost predicate SpecDenotes(spec: seq<Range>, val: nat)
    requires WellFormedSpec(spec)
  {
    spec == [] || exists i :: 0 <= i < |spec| && spec[i].Denotes(val)
  }

  lemma RangeCharacters(r: Range, c: char)
    requires r.WellFormed() && !IsDigit(c) && c != '-'
    ensures c !in r.ToText()
  {
  }

  lemma SpecSplits(spec: seq<Range>)
    requires WellFormedSpec(spec)
    ensures Split(SpecText(spec), '.') == if spec == [] then [""] else RangeTexts(spec)
  {
    if spec != [] {
      forall i | 0 <= i < |spec| ensures '.' !in RangeTexts(spec)[i] {
        RangeCharacters(spec[i], '.');
      }
      SplitJoin(RangeTexts(spec), '.');
    }
  }

  lemma SpecIsSupported(spec: seq<Range>)
    requires WellFormedSpec(spec)
    ensures SupportedSpec(SpecText(spec))
  {
    SpecSplits(spec);
    forall i | 0 <= i < |spec| ensures Supported(RangeTexts(spec)[i]) {
      RangeRead(spec[i], 0);
    }
  }

  /** The printer's reading of a specifier, for every specifier and index. */
  lemma SpecRead(spec: seq<Range>, val: nat)
    requires WellFormedSpec(spec) && val <= SIZE_MAX
    ensures SupportedSpec(SpecText(spec))
    ensures Belongs(SpecText(spec), val) <==>
            SpecDenotes(spec, val) || exists i :: 0 <= i < |spec| && spec[i].Unlimited(val)
  {
    SpecSplits(spec);
    SpecIsSupported(spec);
    if spec == [] {
      assert Accepts(Split("", '.')[0], val);
    } else {
      var texts := RangeTexts(spec);
      forall i | 0 <= i < |spec|
        ensures Accepts(texts[i], val) <==> spec[i].Denotes(val) || spec[i].Unlimited(val)
      {
        RangeRead(spec[i], val);
      }
    }
  }

  predicate FitsSpec(spec: seq<Range>)
    requires WellFormedSpec(spec)
  {
    forall i :: 0 <= i < |spec| ==> spec[i].Fits()
  }

  /** With numbers that fit, a specifier means what the help text says. */
  lemma SpecMeetsGrammar(spec: seq<Range>, val: nat)
    requires WellFormedSpec(spec) && FitsSpec(spec) && val <= SIZE_MAX
    ensures SupportedSpec(SpecText(spec))
    ensures Belongs(SpecText(spec), val) <==> SpecDenotes(spec, val)
  {
    SpecRead(spec, val);
    forall i | 0 <= i < |spec| ensures !spec[i].Unlimited(val) {
      assert spec[i].Fits();
    }
  }

  // ----- selectors of several dimensions -----

  predicate WellFormedSelector(specs: seq<seq<Range>>) {
    forall i :: 0 <= i < |specs| ==> WellFormedSpec(specs[i])
  }

  function SpecTexts(specs: seq<seq<Range>>): (r: seq<string>)
    ensures |r| == |specs| && forall i :: 0 <= i < |specs| ==> r[i] == SpecText(specs[i])
  {
    seq(|specs|, i requires 0 <= i < |specs| => SpecText(specs[i]))
  }

  function SelectorText(specs: seq<seq<Range>>): string {
    if specs == [] then "" else Join(SpecTexts(specs), ',')
  }

  /** Documented meaning: every index lies in its dimension's specifier, if there is one. */
  ghost predicate SelectorDenotes(specs: seq<seq<Range>>, path: seq<nat>)
    requires WellFormedSelector(specs)
  {
    forall i :: 0 <= i < |specs| && i < |path| ==> SpecDenotes(specs[i], path[i])
  }

  lemma {:induction false} JoinCharacters(parts: seq<string>, sep: char, c: char)
    requires parts != [] && c != sep && forall i :: 0 <= i < |parts| ==> c !in parts[i]
    ensures c !in Join(parts, sep)
  {
    if |parts| > 1 {
      JoinCharacters(parts[1..], sep, c);
    }
  }

  lemma SpecHasNoComma(spec: seq<Range>)
    requires WellFormedSpec(spec)
    ensures ',' !in SpecText(spec)
  {
    if spec != [] {
      forall i | 0 <= i < |spec| ensures ',' !in RangeTexts(spec)[i] {
        RangeCharacters(spec[i], ',');
      }
      JoinCharacters(RangeTexts(spec), '.', ',');
    }
  }

  lemma SelectorSplits(specs: seq<seq<Range>>)
    requires WellFormedSelector(specs) && specs != []
    ensures Split(SelectorText(specs), ',') == SpecTexts(specs)
  {
    forall i | 0 <= i < |specs| ensures ',' !in SpecTexts(specs)[i] {
      SpecHasNoComma(specs[i]);
    }
    SplitJoin(SpecTexts(specs), ',');
  }

  lemma SelectorIsSupported(specs: seq<seq<Range>>)
    requires WellFormedSelector(specs)
    ensures SupportedSelector(SelectorText(specs))
  {
    if specs == [] {
      SpecIsSupported([]);
    } else {
      SelectorSplits(specs);
      forall i | 0 <= i < |specs| ensures SupportedSpec(SpecTexts(specs)[i]) {
        SpecIsSupported(specs[i]);
      }
    }
  }

  /** The printer selects exactly the index paths that the help text promises, for every selector
      built by its grammar from numbers that fit. */
  lemma SelectorMeetsGrammar(specs: seq<seq<Range>>, path: seq<nat>)
    requires WellFormedSelector(specs)
    requires forall i :: 0 <= i < |specs| ==> FitsSpec(specs[i])
    requires forall i :: 0 <= i < |path| ==> path[i] <= SIZE_MAX
    ensures SupportedSelector(SelectorText(specs))
    ensures Selects(SelectorText(specs), path) <==> SelectorDenotes(specs, path)
  {
    SelectorIsSupported(specs);
    if specs != [] {
      SelectorSplits(specs);
      var texts := SpecTexts(specs);
      forall i | 0 <= i < |specs| && i < |path|
        ensures Belongs(texts[i], path[i]) <==> SpecDenotes(specs[i], path[i])
      {
        SpecMeetsGrammar(specs[i], path[i]);
      }
      if SelectorText(specs) == "" {
        EmptySelector(specs);
      }
    }
  }

  /** The example in the help text: of a 10 x 5 x 4 statistic, rows 1, 2, 3 and 8 of the first dimension, row
      2 of the second and rows 2 and 3 of the last. */
  lemma HelpTextExample(path: seq<nat>)
    requires |path| == 3 && path[0] < 10 && path[1] < 5 && path[2] < 4
    ensures SupportedSelector("1-3.8,2,2-")
    ensures Selects("1-3.8,2,2-", path) <==> path[0] in {1, 2, 3, 8} && path[1] == 2 && path[2] in {2, 3}
  {
    var first, second, third := [Between("1", "3"), Exactly("8")], [Exactly("2")], [From("2")];
    var specs := [first, second, third];
    ExampleFits(specs, first, second, third);
    ExampleText(specs, first, second, third);
    SelectorMeetsGrammar(specs, path);
    ExampleDenotes(specs, first, second, third, path);
  }

  lemma ExampleDenotes(specs: seq<seq<Range>>, first: seq<Range>, second: seq<Range>, third: seq<Range>, path: seq<nat>)
    requires first == [Between("1", "3"), Exactly("8")] && second == [Exactly("2")] && third == [From("2")]
    requires specs == [first, second, third] && WellFormedSelector(specs) && |path| == 3 && path[2] < 4
    ensures SelectorDenotes(specs, path) <==> path[0] in {1, 2, 3, 8} && path[1] == 2 && path[2] in {2, 3}
  {
    SmallNumerals();
    ThreeSpecs(specs, path);
    TwoRanges(first, path[0]);
    OneRange(second, path[1]);
    OneRange(third, path[2]);
  }

  lemma ExampleFits(specs: seq<seq<Range>>, first: seq<Range>, second: seq<Range>, third: seq<Range>)
    requires first == [Between("1", "3"), Exactly("8")] && second == [Exactly("2")] && third == [From("2")]
    requires specs == [first, second, third]
    ensures WellFormedSelector(specs) && forall i :: 0 <= i < |specs| ==> FitsSpec(specs[i])
  {
    SmallNumerals();
  }

  lemma ThreeSpecs(specs: seq<seq<Range>>, path: seq<nat>)
    requires |specs| == 3 == |path| && WellFormedSelector(specs)
    ensures SelectorDenotes(specs, path) <==>
            SpecDenotes(specs[0], path[0]) && SpecDenotes(specs[1], path[1]) && SpecDenotes(specs[2], path[2])
  {
  }

  lemma ExampleText(specs: seq<seq<Range>>, first: seq<Range>, second: seq<Range>, third: seq<Range>)
    requires first == [Between("1", "3"), Exactly("8")] && second == [Exactly("2")] && third == [From("2")]
    requires specs == [first, second, third]
    ensures SelectorText(specs) == "1-3.8,2,2-"
  {
    var a, b, c, d := Between("1", "3"), Exactly("8"), Exactly("2"), From("2");
    assert a.ToText() == "1-3" && b.ToText() == "8" && c.ToText() == "2" && d.ToText() == "2-";
    assert RangeTexts([a, b]) == [a.ToText(), b.ToText()];
    assert RangeTexts([c]) == [c.ToText()] && RangeTexts([d]) == [d.ToText()];
    JoinTwo("1-3", "8", '.');
    assert SpecText(first) == "1-3.8" && SpecText(second) == "2" && SpecText(third) == "2-";
    assert SpecTexts(specs) == ["1-3.8", "2", "2-"];
    JoinThree("1-3.8", "2", "2-", ',');
  }

  lemma JoinTwo(a: string, b: string, c: char)
    ensures Join([a, b], c) == a + [c] + b
  {
    assert [a, b][1..] == [b];
  }

  lemma JoinThree(a: string, b: string, d: string, c: char)
    ensures Join([a, b, d], c) == a + [c] + b + [c] + d
  {
    assert [a, b, d][1..] == [b, d];
    JoinTwo(b, d, c);
  }

  lemma OneRange(spec: seq<Range>, val: nat)
    requires |spec| == 1 && WellFormedSpec(spec)
    ensures SpecDenotes(spec, val) <==> spec[0].Denotes(val)
  {
  }

  lemma TwoRanges(spec: seq<Range>, val: nat)
    requires |spec| == 2 && WellFormedSpec(spec)
    ensures SpecDenotes(spec, val) <==> spec[0].Denotes(val) || spec[1].Denotes(val)
  {
  }

  lemma SmallNumerals()
    ensures NumValue("1") == 1 && NumValue("2") == 2 && NumValue("3") == 3 && NumValue("8") == 8
  {
    assert "1"[..0] == "" && "2"[..0] == "" && "3"[..0] == "" && "8"[..0] == "";
  }

  /** A text without separators comes from one specifier, and the empty text from an empty one. */
  lemma EmptySelector(specs: seq<seq<Range>>)
    requires WellFormedSelector(specs) && specs != [] && SelectorText(specs) == ""
    ensures specs == [[]]
  {
    SelectorSplits(specs);
    assert Split("", ',') == [""];
    assert SpecTexts(specs)[0] == "";
    SpecSplits(specs[0]);
    if specs[0] != [] {
      assert false;
    }
  }

  // ----- the printer's loops -----

  method ConvertToNumber(s: string, before: nat) returns (num: nat)
    ensures num == NumberOr(s, before)
  {
    var n := LexicalCast(s);
    num := if n.Some? then n.value else before;
  }

  method BelongsToRange(spec: string, val: nat) returns (b: bool)
    requires SupportedSpec(spec)
    ensures b <==> Belongs(spec, val)
  {
    var ranges := Split(spec, '.');
    for i := 0 to |ranges|
      invariant forall j :: 0 <= j < i ==> !Accepts(ranges[j], val)
    {
      assert Supported(ranges[i]);
      var bounds := Split(ranges[i], '-');
      if |bounds| == 1 {
        var theVal := ConvertToNumber(bounds[0], SIZE_MAX);
        if theVal == val || theVal == SIZE_MAX {
          return true;
        }
      } else {
        var low := ConvertToNumber(bounds[0], 0);
        var high := ConvertToNumber(bounds[1], SIZE_MAX);
        if val >= low && val <= high {
          return true;
        }
      }
    }
    return false;
  }
}
