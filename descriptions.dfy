/** The description engine of `mk_descriptions.py`: the letter grade of a minimum GPA, the
    compact requirement code of an offering, the Oxford-comma join of a phrase list, and
    `describe_rule`, which turns one transfer rule's source and destination courses into
    the text `<sources> => <destinations>`. */
module Descriptions {

  import opened Options
  import opened Text
  import opened OrderedDicts
  import opened RequirementDicts
  import opened CourseCatalog

  // ---------------------------------------------------------------------------------------
  // min_grade
  // ---------------------------------------------------------------------------------------

  const Breakpoints: seq<real> := [0.7, 1.0, 1.3, 1.7, 2.0, 2.3, 2.7, 3.0, 3.3, 3.7, 4.0, 4.3]
  const Letters: seq<string> := ["P", "D-", "D", "D+", "C-", "C", "C+", "B-", "B", "B+", "A-", "A", "A+"]

  predicate Sorted(a: seq<real>) {
    forall i, j :: 0 <= i < j < |a| ==> a[i] <= a[j]
  }

  lemma BreakpointsSorted()
    ensures Sorted(Breakpoints)
  {
  }

  /** `bisect.bisect(a, x)` (bisect_right): the number of leading elements not above `x`,
      which on a sorted list is the position where `x` goes after any equal elements. */
  function BisectRight(a: seq<real>, x: real): (k: nat)
    ensures k <= |a|
    ensures forall j :: 0 <= j < k ==> a[j] <= x
    ensures Sorted(a) ==> forall j :: k <= j < |a| ==> x < a[j]
  {
    if a == [] || x < a[0] then 0
    else
      var k := BisectRight(a[1..], x);
      assert forall j :: 1 <= j < k + 1 ==> a[j] == a[1..][j - 1];
      k + 1
  }

  lemma {:induction false} BisectRightMonotone(a: seq<real>, x: real, y: real)
    requires x <= y
    ensures BisectRight(a, x) <= BisectRight(a, y)
  {
    if a != [] && a[0] <= x {
      BisectRightMonotone(a[1..], x, y);
    }
  }

  /** The position of `x` in `s`, -1 when it does not occur. */
  function PositionOf(s: seq<string>, x: string): (k: int)
    ensures -1 <= k < |s|
    ensures k == -1 <==> x !in s
    ensures k >= 0 ==> s[k] == x && x !in s[..k]
  {
    if s == [] then -1
    else if s[0] == x then 0
    else
      var k := PositionOf(s[1..], x);
      if k == -1 then -1
      else
        assert s[..k + 1] == [s[0]] + s[1..][..k];
        k + 1
  }

  /** The position of a letter in `Letters`, -1 for any other string. */
  function Rank(g: string): int {
    PositionOf(Letters, g)
  }

  lemma RankOfLetters()
    ensures forall k :: 0 <= k < |Letters| ==> Rank(Letters[k]) == k
  {
    assert NoDuplicates(Letters);
  }

  /** `min_grade(min_gpa)`: the letter at index "number of breakpoints at most `minGpa`". */
  function MinGrade(minGpa: real): (grade: string)
    ensures grade in Letters
    ensures grade == "P" <==> minGpa < 0.7
    ensures grade == "A+" <==> minGpa >= 4.3
  {
    BreakpointsSorted();
    var k := BisectRight(Breakpoints, minGpa);
    assert k < 12 ==> minGpa < Breakpoints[k] <= Breakpoints[11];
    assert k == 12 ==> Breakpoints[11] <= minGpa;
    Letters[k]
  }

  /** The step function: between two neighbouring breakpoints the grade is constant, and the
      letter is chosen by the breakpoint at or below `minGpa`. */
  lemma MinGradeStep(minGpa: real, k: nat)
    requires k < |Letters|
    requires k == 0 || Breakpoints[k - 1] <= minGpa
    requires k == |Breakpoints| || minGpa < Breakpoints[k]
    ensures MinGrade(minGpa) == Letters[k]
  {
    BreakpointsSorted();
    var b := BisectRight(Breakpoints, minGpa);
  }

  /** A higher minimum GPA never asks for a lower letter. */
  lemma MinGradeMonotone(x: real, y: real)
    requires x <= y
    ensures Rank(MinGrade(x)) <= Rank(MinGrade(y))
  {
    BreakpointsSorted();
    RankOfLetters();
    var kx, ky := BisectRight(Breakpoints, x), BisectRight(Breakpoints, y);
    BisectRightMonotone(Breakpoints, x, y);
    assert MinGrade(x) == Letters[kx] && MinGrade(y) == Letters[ky];
  }

  /** A GPA of exactly 0.7 already asks for `D-`. */
  lemma MinGradeAtFirstBreakpoint()
    ensures MinGrade(0.7) == "D-"
  {
    MinGradeStep(0.7, 1);
  }

  lemma MinGradeOfTwo()
    ensures MinGrade(2.0) == "C"
  {
    MinGradeStep(2.0, 5);
  }

  // ---------------------------------------------------------------------------------------
  // format_requirements
  // ---------------------------------------------------------------------------------------

  /** Python truthiness of the optional fields: `None` and the empty value are both false. */
  predicate HasPathway(r: Requirements) {
    r.pways.Some? && r.pways.value != ""
  }

  predicate HasEquivalents(r: Requirements) {
    r.equiv.Some? && r.equiv.value != []
  }

  /** The compact code `pways:CO:ME:nnn` of a requirements dict; the sentinel
      `--:--:--:000` when the column is null. */
  function FormatRequirements(requirements: Option<Requirements>): (code: string)
    ensures code != [] && IsDigit(code[|code| - 1])
  {
    match requirements
    case None => "--:--:--:000"
    case Some(r) =>
      var count := PadCount(|r.plans|);
      (if HasPathway(r) then r.pways.value else "--")
      + ":" + (if r.copt then "CO" else "--")
      + ":" + (if HasEquivalents(r) then "ME" else "--")
      + ":" + count
  }

  /** What a code says: its pathway field, the two flags and the plan count. */
  datatype CodeFields = CodeFields(pathway: string, commonCore: bool, majorEquivalent: bool, planCount: nat)

  /** Reads a code back into its four fields; `None` when it is not of the code's shape. */
  function ParseRequirementCode(code: string): Option<CodeFields> {
    ReadFields(Split(code, ':'))
  }

  function ReadFields(f: seq<string>): Option<CodeFields> {
    if |f| == 4 then ReadFour(f[0], f[1], f[2], f[3]) else None
  }

  function ReadFour(pathway: string, co: string, me: string, count: string): Option<CodeFields> {
    if && (co == "CO" || co == "--") && (me == "ME" || me == "--")
       && AllDigits(count) && |count| >= 3 && (|count| == 3 || count[0] != '0')
    then Some(CodeFields(pathway, co == "CO", me == "ME", DecimalValue(count)))
    else None
  }

  /** The fields a requirements dict should be summarised by. */
  function Summary(requirements: Option<Requirements>): CodeFields {
    match requirements
    case None => CodeFields("--", false, false, 0)
    case Some(r) =>
      CodeFields(if HasPathway(r) then r.pways.value else "--", r.copt, HasEquivalents(r), |r.plans|)
  }

  /** The code is exact: reading it back yields the pathway (or `--`), whether COPT holds,
      whether there is any Major Equivalency, and the number of plans. */
  lemma FormatRequirementsRoundTrip(requirements: Option<Requirements>)
    requires requirements.Some? && requirements.value.pways.Some? ==> ':' !in requirements.value.pways.value
    ensures ParseRequirementCode(FormatRequirements(requirements)) == Some(Summary(requirements))
  {
    match requirements
    case None => NullCodeRoundTrip();
    case Some(r) => DictCodeRoundTrip(r);
  }

  lemma NullCodeRoundTrip()
    ensures ParseRequirementCode("--:--:--:000") == Some(CodeFields("--", false, false, 0))
  {
    assert "--:--:--:000" == "--" + ":" + "--" + ":" + "--" + ":" + "000";
    assert DecimalValue("000") == 0 by {
      assert "000"[..2] == "00" && "00"[..1] == "0" && "0"[..0] == "";
    }
    ParseFields("--", false, false, "000");
  }

  lemma DictCodeRoundTrip(r: Requirements)
    requires r.pways.Some? ==> ':' !in r.pways.value
    ensures ParseRequirementCode(FormatRequirements(Some(r))) == Some(Summary(Some(r)))
  {
    var pathway := if HasPathway(r) then r.pways.value else "--";
    var count := PadCount(|r.plans|);
    assert FormatRequirements(Some(r)) == pathway + ":" + (if r.copt then "CO" else "--")
      + ":" + (if HasEquivalents(r) then "ME" else "--") + ":" + count;
    assert Summary(Some(r)) == CodeFields(pathway, r.copt, HasEquivalents(r), |r.plans|);
    PadCountValue(|r.plans|);
    ParseFields(pathway, r.copt, HasEquivalents(r), count);
  }

  /** No other string reads back as a code's summary: a code that parses to the summary of
      a requirements value is that value's code, character for character. */
  lemma FormatRequirementsExact(requirements: Option<Requirements>, code: string)
    requires ParseRequirementCode(code) == Some(Summary(requirements))
    ensures code == FormatRequirements(requirements)
  {
    var f := Split(code, ':');
    var summary := Summary(requirements);
    assert |f| == 4;
    assert code == f[0] + ":" + f[1] + ":" + f[2] + ":" + f[3] by {
      JoinSplit(code, ':');
      JoinFour(f, ":");
    }
    assert ReadFour(f[0], f[1], f[2], f[3]) == Some(summary);
    assert f[0] == summary.pathway;
    assert f[1] == if summary.commonCore then "CO" else "--";
    assert f[2] == if summary.majorEquivalent then "ME" else "--";
    assert f[3] == PadCount(summary.planCount) by {
      PadCountCanonical(f[3]);
    }
    match requirements
    case None =>
      FormatRequirementsEmpty(None);
    case Some(r) =>
  }

  /** For a pathway without `:`, a string is the code of a requirements value exactly when it
      reads back as that value's summary. */
  lemma FormatRequirementsCharacterised(requirements: Option<Requirements>, code: string)
    requires requirements.Some? && requirements.value.pways.Some? ==> ':' !in requirements.value.pways.value
    ensures ParseRequirementCode(code) == Some(Summary(requirements)) <==> code == FormatRequirements(requirements)
  {
    FormatRequirementsRoundTrip(requirements);
    if ParseRequirementCode(code) == Some(Summary(requirements)) {
      FormatRequirementsExact(requirements, code);
    }
  }

  lemma ParseFields(pathway: string, commonCore: bool, majorEquivalent: bool, count: string)
    requires ':' !in pathway && ':' !in count
    requires AllDigits(count) && |count| >= 3 && (|count| == 3 || count[0] != '0')
    ensures var code := pathway + ":" + (if commonCore then "CO" else "--")
                        + ":" + (if majorEquivalent then "ME" else "--") + ":" + count;
      ParseRequirementCode(code) == Some(CodeFields(pathway, commonCore, majorEquivalent, DecimalValue(count)))
  {
    var co: string := if commonCore then "CO" else "--";
    var me: string := if majorEquivalent then "ME" else "--";
    assert ':' !in co && ':' !in me;
    SplitFour(pathway, co, me, count);
    var fields := [pathway, co, me, count];
    assert ReadFields(fields) == ReadFour(pathway, co, me, count);
    assert "--"[0] != "CO"[0] && "--"[0] != "ME"[0];
    assert (co == "CO") == commonCore && (me == "ME") == majorEquivalent;
  }

  /** Four `:`-free fields joined by `:` split back into themselves. */
  lemma SplitFour(a: string, b: string, c: string, d: string)
    requires ':' !in a && ':' !in b && ':' !in c && ':' !in d
    ensures Split(a + ":" + b + ":" + c + ":" + d, ':') == [a, b, c, d]
  {
    var fields := [a, b, c, d];
    assert forall p :: p in fields ==> ':' !in p;
    JoinFour(fields, ":");
    SplitJoin(fields, ':');
  }

  lemma JoinFour(fields: seq<string>, sep: string)
    requires |fields| == 4
    ensures Join(fields, sep) == fields[0] + sep + fields[1] + sep + fields[2] + sep + fields[3]
  {
    var t := fields[1..];
    var u := t[1..];
    assert u[1..] == [fields[3]];
    assert Join(u, sep) == fields[2] + sep + fields[3];
    assert Join(t, sep) == fields[1] + sep + (fields[2] + sep + fields[3]);
  }

  /** A null column and a dict with every field empty both give the sentinel code. */
  lemma FormatRequirementsEmpty(equiv: Option<seq<string>>)
    requires equiv.None? || equiv == Some([])
    ensures FormatRequirements(None) == "--:--:--:000"
    ensures FormatRequirements(Some(Requirements(None, false, equiv, []))) == "--:--:--:000"
  {
    assert "--" + ":" + "--" + ":" + "--" + ":" + "000" == "--:--:--:000";
    assert PadCount(0) == "000" by {
      assert Decimal(0) == "0";
      assert Zeros(1) == "0";
      assert Zeros(2) == "00";
    }
  }

  // ---------------------------------------------------------------------------------------
  // oxfordize
  // ---------------------------------------------------------------------------------------

  const DefaultConjunction := "and"

  /** `oxfordize(things, conjunction)`. */
  function Oxfordize(things: seq<string>, conjunction: string): (text: string)
    ensures |things| >= 1 ==> StartsWith(text, things[0]) && EndsWith(text, things[|things| - 1])
  {
    if |things| == 0 then ""
    else if |things| == 1 then
      Affixes(things[0], "", "");
      assert things[0] + "" + "" == things[0];
      things[0]
    else if |things| == 2 then
      Affixes(things[0], " " + conjunction + " ", things[1]);
      things[0] + " " + conjunction + " " + things[1]
    else
      var init, last := things[..|things| - 1], things[|things| - 1];
      var head := Join(init, ", ");
      assert StartsWith(head, things[0]) by {
        assert head == init[0] + ", " + Join(init[1..], ", ");
        Affixes(init[0], ", ", Join(init[1..], ", "));
      }
      var text := head + ", " + conjunction + " " + last;
      assert StartsWith(text, things[0]) && EndsWith(text, last) by {
        Affixes(head, ", " + conjunction + " ", last);
        assert text[..|things[0]|] == head[..|things[0]|];
      }
      text
  }

  /** The text that follows item `i` of `n` items in an English list: a comma, except that
      the last gap holds the conjunction, preceded by the Oxford comma when `n` is three or
      more. */
  function Separator(n: nat, i: nat, conjunction: string): string {
    if i + 2 < n then ", "
    else if n == 2 then " " + conjunction + " "
    else ", " + conjunction + " "
  }

  /** `things[i]`, then for each later item its separator and the item. */
  function Listing(things: seq<string>, i: nat, conjunction: string): string
    requires i < |things|
    decreases |things| - i
  {
    if i == |things| - 1 then things[i]
    else things[i] + Separator(|things|, i, conjunction) + Listing(things, i + 1, conjunction)
  }

  lemma {:induction false} JoinListing(things: seq<string>, i: nat, conjunction: string)
    requires |things| >= 3 && i <= |things| - 2
    ensures Join(things[i..|things| - 1], ", ") + ", " + conjunction + " " + things[|things| - 1]
            == Listing(things, i, conjunction)
    decreases |things| - i
  {
    var n := |things|;
    if i < n - 2 {
      JoinListing(things, i + 1, conjunction);
      assert things[i..n - 1][1..] == things[i + 1..n - 1];
    }
  }

  /** Every item appears once, in order; the gaps are as `Separator` says. */
  lemma OxfordizeListing(things: seq<string>, conjunction: string)
    requires |things| >= 1
    ensures Oxfordize(things, conjunction) == Listing(things, 0, conjunction)
  {
    if |things| >= 3 {
      JoinListing(things, 0, conjunction);
      assert things[0..|things| - 1] == things[..|things| - 1];
    }
  }

  lemma OxfordizeExamples()
    ensures Oxfordize([], DefaultConjunction) == ""
    ensures Oxfordize(["A"], DefaultConjunction) == "A"
    ensures Oxfordize(["A", "B"], DefaultConjunction) == "A and B"
    ensures Oxfordize(["A", "B", "C"], DefaultConjunction) == "A, B, and C"
  {
    assert ["A", "B", "C"][..2] == ["A", "B"];
    assert ["A", "B"][1..] == ["B"];
    assert Join(["A", "B"], ", ") == "A, B";
  }

  lemma OxfordizeOr()
    ensures Oxfordize(["A", "B", "C", "D"], "or") == "A, B, C, or D"
  {
    assert ["A", "B", "C", "D"][..3] == ["A", "B", "C"];
    assert ["A", "B", "C"][1..] == ["B", "C"];
    assert ["B", "C"][1..] == ["C"];
    assert Join(["A", "B", "C"], ", ") == "A, B, C";
  }

  // ---------------------------------------------------------------------------------------
  // describe_rule
  // ---------------------------------------------------------------------------------------

  /** A source course of a rule, with the minimum GPA the rule asks for. */
  datatype SourceCourse = SourceCourse(courseId: CourseId, offerNbr: OfferNbr, minGpa: real)

  datatype DestinationCourse = DestinationCourse(courseId: CourseId, offerNbr: OfferNbr)

  /** One row of the rules query; the course lists come in the order the query gives them. */
  datatype RuleRow = RuleRow(
    ruleKey: string,
    effectiveDate: string,
    sourceCourses: seq<SourceCourse>,
    destinationCourses: seq<DestinationCourse>)

  /** What `describe_rule` returns: the bare string `No Rule Information` for a missing row,
      otherwise the triple (rule key, effective date, text). */
  datatype Description =
    | NoRuleInformation
    | Described(ruleKey: string, effectiveDate: string, text: string)

  /** The `course` labels of the offerings whose offer number is not `offerNbr`, in cache
      order: the aliases of that offering. */
  function AliasTitles(offerings: Dict<OfferNbr, Offering>, offerNbr: OfferNbr): seq<string> {
    if offerings == [] then []
    else
      var r := AliasTitles(offerings[..|offerings| - 1], offerNbr);
      var last := offerings[|offerings| - 1];
      if last.0 == offerNbr then r else r + [last.1.course]
  }

  /** Every offering but the matching one contributes one alias. */
  lemma {:induction false} AliasCount(offerings: Dict<OfferNbr, Offering>, offerNbr: OfferNbr)
    ensures offerNbr !in KeysOf(offerings) ==> |AliasTitles(offerings, offerNbr)| == |offerings|
    ensures UniqueKeys(offerings) && offerNbr in KeysOf(offerings) ==>
      |AliasTitles(offerings, offerNbr)| == |offerings| - 1
  {
    if offerings != [] {
      var init, last := offerings[..|offerings| - 1], offerings[|offerings| - 1];
      AliasCount(init, offerNbr);
      assert offerings == init + [last];
      KeysOfSnoc(init, last);
      var keys, initKeys := KeysOf(offerings), KeysOf(init);
      if UniqueKeys(offerings) {
        assert UniqueKeys(init) by {
          forall i, j | 0 <= i < j < |init| ensures initKeys[i] != initKeys[j] {
            assert keys[i] == initKeys[i] && keys[j] == initKeys[j];
          }
        }
        forall i | 0 <= i < |init| ensures initKeys[i] != last.0 {
          assert keys[i] == initKeys[i] && keys[|init|] == last.0;
        }
      }
    }
  }

  /** ` (=a,b)`, or nothing when there are no aliases. */
  function AliasSuffix(aliases: seq<string>): (suffix: string)
    ensures suffix == [] <==> aliases == []
    ensures aliases != [] ==> StartsWith(suffix, " (=") && EndsWith(suffix, ")")
    ensures aliases != [] && (forall a :: a in aliases ==> ',' !in a) ==>
      |suffix| >= 4 && Split(suffix[3..|suffix| - 1], ',') == aliases
  {
    if aliases == [] then ""
    else
      var joined := Join(aliases, ",");
      Affixes(" (=", joined, ")");
      assert (" (=" + joined + ")")[3..|joined| + 3] == joined;
      assert (forall a :: a in aliases ==> ',' !in a) ==> Split(joined, ',') == aliases by {
        if forall a :: a in aliases ==> ',' !in a {
          SplitJoin(aliases, ',');
        }
      }
      " (=" + joined + ")"
  }

  /** The requirement code an unresolved source course shows, brackets included; the phrase
      puts another pair of brackets around it. */
  const UnresolvedSourceCode := "[--:--:--:---]"

  /** The phrase for one source course. */
  function SourcePhrase(catalog: Catalog, course: SourceCourse): string {
    var offerings := Offerings(catalog, course.courseId);
    var aliases := AliasSuffix(AliasTitles(offerings, course.offerNbr));
    match Get(offerings, course.offerNbr)
    case Some(o) => o.course + aliases + " " + MinGrade(course.minGpa) + " [" + FormatRequirements(o.requirements) + "]"
    case None => "No course" + aliases + " P [" + UnresolvedSourceCode + "]"
  }

  /** The phrase for one destination course. An unresolved one keeps the initial `False`
      flags, which Python renders as `False`, and an empty requirement code. */
  function DestinationPhrase(catalog: Catalog, course: DestinationCourse): string {
    var offerings := Offerings(catalog, course.courseId);
    var aliases := AliasSuffix(AliasTitles(offerings, course.offerNbr));
    match Get(offerings, course.offerNbr)
    case Some(o) =>
      o.course + aliases + " " + (if o.isMesg then "M" else "-") + (if o.isBkcr then "B" else "-")
      + " [" + FormatRequirements(o.requirements) + "]"
    case None => "No course" + aliases + " FalseFalse []"
  }

  /** The list a loop builds by appending `phrase(c)` for each course `c`, in order. */
  function PhraseList<T>(phrase: T -> string, courses: seq<T>): seq<string> {
    if courses == [] then []
    else PhraseList(phrase, courses[..|courses| - 1]) + [phrase(courses[|courses| - 1])]
  }

  function SourcePhraseIn(catalog: Catalog): SourceCourse -> string {
    course => SourcePhrase(catalog, course)
  }

  function DestinationPhraseIn(catalog: Catalog): DestinationCourse -> string {
    course => DestinationPhrase(catalog, course)
  }

  function SourcePhrases(catalog: Catalog, courses: seq<SourceCourse>): seq<string> {
    PhraseList(SourcePhraseIn(catalog), courses)
  }

  function DestinationPhrases(catalog: Catalog, courses: seq<DestinationCourse>): seq<string> {
    PhraseList(DestinationPhraseIn(catalog), courses)
  }

  /** The description of a rule row, or of a missing one. */
  function Describe(catalog: Catalog, row: Option<RuleRow>): (d: Description)
    ensures row.None? <==> d == NoRuleInformation
    ensures row.Some? ==> d.ruleKey == row.value.ruleKey && d.effectiveDate == row.value.effectiveDate
    ensures row.Some? ==> exists i: nat :: OccursAt(d.text, " => ", i)
  {
    match row
    case None => NoRuleInformation
    case Some(r) =>
      var sources := Oxfordize(SourcePhrases(catalog, r.sourceCourses), DefaultConjunction);
      var destinations := Oxfordize(DestinationPhrases(catalog, r.destinationCourses), DefaultConjunction);
      var text := sources + " => " + destinations;
      assert OccursAt(text, " => ", |sources|) by {
        assert text[|sources|..|sources| + 4] == " => ";
      }
      Described(r.ruleKey, r.effectiveDate, text)
  }

  /** What one more offering changes in the lookup and the alias list. */
  lemma OfferingsStep(infos: Dict<OfferNbr, Offering>, j: nat, offerNbr: OfferNbr)
    requires j < |infos|
    ensures Get(infos[..j + 1], offerNbr) ==
      if infos[j].0 == offerNbr then Some(infos[j].1) else Get(infos[..j], offerNbr)
    ensures AliasTitles(infos[..j + 1], offerNbr) ==
      if infos[j].0 == offerNbr then AliasTitles(infos[..j], offerNbr)
      else AliasTitles(infos[..j], offerNbr) + [infos[j].1.course]
  {
    assert infos[..j + 1][..j] == infos[..j];
  }

  /** The loop over one source course's cached offerings, filling in the course's fields. */
  method DescribeSource(catalog: Catalog, source: SourceCourse) returns (phrase: string)
    ensures phrase == SourcePhrase(catalog, source)
  {
    var infos := Offerings(catalog, source.courseId);
    var offerNbr: Option<OfferNbr> := None;
    var course := "";
    var grade := "P";
    var aliases: seq<string> := [];
    var requirements := "";
    ghost var found: Option<Offering> := None;
    var j := 0;
    while j < |infos|
      invariant 0 <= j <= |infos|
      invariant aliases == AliasTitles(infos[..j], source.offerNbr)
      invariant found == Get(infos[..j], source.offerNbr)
      invariant offerNbr.Some? <==> found.Some?
      invariant offerNbr.None? ==> grade == "P"
      invariant found.Some? ==>
        course == found.value.course && grade == MinGrade(source.minGpa)
        && requirements == FormatRequirements(found.value.requirements)
    {
      var (thisOfferNbr, info) := infos[j];
      OfferingsStep(infos, j, source.offerNbr);
      if thisOfferNbr == source.offerNbr {
        found := Some(info);
        offerNbr := Some(source.offerNbr);
        course := info.course;
        grade := MinGrade(source.minGpa);
        requirements := FormatRequirements(info.requirements);
      } else {
        aliases := aliases + [info.course];
      }
      j := j + 1;
    }
    assert infos[..j] == infos;
    if offerNbr.None? {
      course := "No course";
      requirements := UnresolvedSourceCode;
    }
    phrase := course + AliasSuffix(aliases) + " " + grade + " [" + requirements + "]";
  }

  /** The loop over one destination course's cached offerings. `mesg` and `bkcr` start as
      Python's `False`, rendered `False`, and become `M`/`-` and `B`/`-` on a match. */
  method DescribeDestination(catalog: Catalog, destination: DestinationCourse) returns (phrase: string)
    ensures phrase == DestinationPhrase(catalog, destination)
  {
    var infos := Offerings(catalog, destination.courseId);
    var offerNbr: Option<OfferNbr> := None;
    var course := "";
    var mesg := "False";
    var bkcr := "False";
    var aliases: seq<string> := [];
    var requirements := "";
    ghost var found: Option<Offering> := None;
    var j := 0;
    while j < |infos|
      invariant 0 <= j <= |infos|
      invariant aliases == AliasTitles(infos[..j], destination.offerNbr)
      invariant found == Get(infos[..j], destination.offerNbr)
      invariant offerNbr.Some? <==> found.Some?
      invariant offerNbr.None? ==> mesg == "False" && bkcr == "False"
      invariant found.Some? ==>
        && course == found.value.course
        && mesg == (if found.value.isMesg then "M" else "-") && bkcr == (if found.value.isBkcr then "B" else "-")
        && requirements == FormatRequirements(found.value.requirements)
    {
      var (thisOfferNbr, info) := infos[j];
      OfferingsStep(infos, j, destination.offerNbr);
      if thisOfferNbr == destination.offerNbr {
        found := Some(info);
        offerNbr := Some(destination.offerNbr);
        course := info.course;
        mesg := if info.isMesg then "M" else "-";
        bkcr := if info.isBkcr then "B" else "-";
        requirements := FormatRequirements(info.requirements);
      } else {
        aliases := aliases + [info.course];
      }
      j := j + 1;
    }
    assert infos[..j] == infos;
    var suffix := AliasSuffix(aliases);
    assert suffix == AliasSuffix(AliasTitles(infos, destination.offerNbr));
    if offerNbr.None? {
      course := "No course";
      requirements := "";
      phrase := course + suffix + " " + mesg + bkcr + " [" + requirements + "]";
      UnresolvedDestinationText(suffix);
    } else {
      phrase := course + suffix + " " + mesg + bkcr + " [" + requirements + "]";
    }
  }

  /** The unresolved destination phrase as the loop writes it out, piece by piece; a lemma of
      its own so that the solver does it without the loop's facts in scope. */
  lemma UnresolvedDestinationText(suffix: string)
    ensures "No course" + suffix + " " + "False" + "False" + " [" + "" + "]" == "No course" + suffix + " FalseFalse []"
  {
  }

  /** `describe_rule(row)`: one phrase per source and per destination course, in order,
      each side joined with an Oxford comma, the two sides separated by ` => `. */
  method DescribeRule(catalog: Catalog, row: Option<RuleRow>) returns (description: Description)
    ensures description == Describe(catalog, row)
  {
    if row.None? {
      return NoRuleInformation;
    }
    var r := row.value;
    var srcList: seq<string> := [];
    var i := 0;
    while i < |r.sourceCourses|
      invariant 0 <= i <= |r.sourceCourses|
      invariant srcList == SourcePhrases(catalog, r.sourceCourses[..i])
    {
      var phrase := DescribeSource(catalog, r.sourceCourses[i]);
      PhraseListStep(SourcePhraseIn(catalog), r.sourceCourses, i);
      srcList := srcList + [phrase];
      i := i + 1;
    }
    assert r.sourceCourses[..i] == r.sourceCourses;
    var dstList: seq<string> := [];
    i := 0;
    while i < |r.destinationCourses|
      invariant 0 <= i <= |r.destinationCourses|
      invariant dstList == DestinationPhrases(catalog, r.destinationCourses[..i])
    {
      var phrase := DescribeDestination(catalog, r.destinationCourses[i]);
      PhraseListStep(DestinationPhraseIn(catalog), r.destinationCourses, i);
      dstList := dstList + [phrase];
      i := i + 1;
    }
    assert r.destinationCourses[..i] == r.destinationCourses;
    var text := Oxfordize(srcList, DefaultConjunction) + " => " + Oxfordize(dstList, DefaultConjunction);
    assert Describe(catalog, row) == Described(r.ruleKey, r.effectiveDate, text);
    description := Described(r.ruleKey, r.effectiveDate, text);
  }

  // ---------------------------------------------------------------------------------------
  // Properties of the descriptions
  // ---------------------------------------------------------------------------------------

  lemma PhraseListStep<T>(phrase: T -> string, courses: seq<T>, i: nat)
    requires i < |courses|
    ensures PhraseList(phrase, courses[..i + 1]) == PhraseList(phrase, courses[..i]) + [phrase(courses[i])]
  {
    assert courses[..i + 1][..i] == courses[..i];
  }

  /** The list has one phrase per course, phrase `i` being that of course `i`. */
  lemma {:induction false} PhraseListAt<T>(phrase: T -> string, courses: seq<T>)
    ensures |PhraseList(phrase, courses)| == |courses|
    ensures forall i :: 0 <= i < |courses| ==> PhraseList(phrase, courses)[i] == phrase(courses[i])
  {
    if courses != [] {
      var init := courses[..|courses| - 1];
      PhraseListAt(phrase, init);
      assert forall i :: 0 <= i < |init| ==> courses[i] == init[i];
    }
  }

  /** One phrase per source course, in the order of the rule's list. */
  lemma SourcePhrasesAt(catalog: Catalog, courses: seq<SourceCourse>)
    ensures |SourcePhrases(catalog, courses)| == |courses|
    ensures forall i :: 0 <= i < |courses| ==> SourcePhrases(catalog, courses)[i] == SourcePhrase(catalog, courses[i])
  {
    PhraseListAt(SourcePhraseIn(catalog), courses);
  }

  /** One phrase per destination course, in the order of the rule's list. */
  lemma DestinationPhrasesAt(catalog: Catalog, courses: seq<DestinationCourse>)
    ensures |DestinationPhrases(catalog, courses)| == |courses|
    ensures forall i :: 0 <= i < |courses| ==>
      DestinationPhrases(catalog, courses)[i] == DestinationPhrase(catalog, courses[i])
  {
    PhraseListAt(DestinationPhraseIn(catalog), courses);
  }

  /** A rule with no courses on either side is described by the bare arrow. */
  lemma DescribeEmptyRule(catalog: Catalog, ruleKey: string, effectiveDate: string)
    ensures Describe(catalog, Some(RuleRow(ruleKey, effectiveDate, [], []))) == Described(ruleKey, effectiveDate, " => ")
  {
  }

  /** The `course` labels of all the offerings, in cache order. */
  function Titles(offerings: Dict<OfferNbr, Offering>): (titles: seq<string>)
    ensures |titles| == |offerings|
  {
    seq(|offerings|, i requires 0 <= i < |offerings| => offerings[i].1.course)
  }

  lemma {:induction false} AliasTitlesAppend(a: Dict<OfferNbr, Offering>, b: Dict<OfferNbr, Offering>, offerNbr: OfferNbr)
    ensures AliasTitles(a + b, offerNbr) == AliasTitles(a, offerNbr) + AliasTitles(b, offerNbr)
  {
    if b == [] {
      assert a + b == a;
    } else {
      var init := b[..|b| - 1];
      AliasTitlesAppend(a, init, offerNbr);
      assert (a + b)[..|a + b| - 1] == a + init;
      assert (a + b)[|a + b| - 1] == b[|b| - 1];
    }
  }

  lemma {:induction false} AliasTitlesUnmatched(offerings: Dict<OfferNbr, Offering>, offerNbr: OfferNbr)
    requires offerNbr !in KeysOf(offerings)
    ensures AliasTitles(offerings, offerNbr) == Titles(offerings)
  {
    if offerings != [] {
      var init := offerings[..|offerings| - 1];
      assert KeysOf(offerings) == KeysOf(init) + [offerings[|offerings| - 1].0];
      AliasTitlesUnmatched(init, offerNbr);
    }
  }

  /** The aliases of an offering are the labels of every other offering of the course, in
      cache order; when the offer number is not cached, every offering is an alias. */
  lemma AliasTitlesMeaning(offerings: Dict<OfferNbr, Offering>, offerNbr: OfferNbr)
    requires UniqueKeys(offerings)
    ensures offerNbr !in KeysOf(offerings) ==> AliasTitles(offerings, offerNbr) == Titles(offerings)
    ensures forall p :: 0 <= p < |offerings| && offerings[p].0 == offerNbr ==>
      AliasTitles(offerings, offerNbr) == Titles(offerings[..p]) + Titles(offerings[p + 1..])
  {
    if offerNbr !in KeysOf(offerings) {
      AliasTitlesUnmatched(offerings, offerNbr);
    }
    forall p | 0 <= p < |offerings| && offerings[p].0 == offerNbr
      ensures AliasTitles(offerings, offerNbr) == Titles(offerings[..p]) + Titles(offerings[p + 1..])
    {
      AliasTitlesAround(offerings, offerNbr, p);
    }
  }

  lemma AliasTitlesAround(offerings: Dict<OfferNbr, Offering>, offerNbr: OfferNbr, p: nat)
    requires UniqueKeys(offerings) && p < |offerings| && offerings[p].0 == offerNbr
    ensures AliasTitles(offerings, offerNbr) == Titles(offerings[..p]) + Titles(offerings[p + 1..])
  {
    var before, at, after := offerings[..p], [offerings[p]], offerings[p + 1..];
    assert offerings == before + at + after;
    assert AliasTitles(offerings, offerNbr) == AliasTitles(before, offerNbr) + AliasTitles(after, offerNbr) by {
      AliasTitlesAppend(before + at, after, offerNbr);
      AliasTitlesAppend(before, at, offerNbr);
      assert at[..0] == [];
    }
    assert AliasTitles(before, offerNbr) == Titles(before) by {
      forall q | 0 <= q < p ensures before[q].0 != offerNbr {
        assert KeysOf(offerings)[q] == before[q].0 && KeysOf(offerings)[p] == offerNbr;
      }
      AliasTitlesUnmatched(before, offerNbr);
    }
    assert AliasTitles(after, offerNbr) == Titles(after) by {
      forall q | 0 <= q < |after| ensures after[q].0 != offerNbr {
        assert KeysOf(offerings)[p + 1 + q] == after[q].0 && KeysOf(offerings)[p] == offerNbr;
      }
      AliasTitlesUnmatched(after, offerNbr);
    }
  }


  /** The shape shared by resolved phrases: the label, the aliases, one field, and the
      bracketed code, which ends in a digit. */
  lemma ResolvedShape(course: string, aliases: string, field: string, code: string)
    requires code != [] && IsDigit(code[|code| - 1])
    ensures var phrase := course + aliases + " " + field + " [" + code + "]";
      && StartsWith(phrase, course)
      && EndsWith(phrase, " " + field + " [" + code + "]")
      && !EndsWith(phrase, "]]") && !EndsWith(phrase, "[]")
  {
    var tail := " " + field + " [" + code + "]";
    var phrase := course + aliases + " " + field + " [" + code + "]";
    assert phrase == course + aliases + tail;
    Affixes(course, aliases, tail);
    assert phrase[|phrase| - 2] == code[|code| - 1];
    assert phrase[|phrase| - 2..][0] == phrase[|phrase| - 2];
  }

  /** The shape of the placeholder phrases. */
  lemma UnresolvedShape(aliases: string, tail: string, end: string)
    requires EndsWith(tail, end)
    ensures var phrase := "No course" + aliases + tail;
      StartsWith(phrase, "No course") && EndsWith(phrase, tail) && EndsWith(phrase, end)
  {
    Affixes("No course", aliases, tail);
    EndsWithTransitive("No course" + aliases + tail, tail, end);
  }

  /** An unresolved source course gets the placeholder phrase: `No course`, then every cached
      offering of the course as an alias, grade `P` whatever the minimum GPA and the doubled
      brackets around `[--:--:--:---]`. */
  lemma SourcePhraseUnresolved(catalog: Catalog, course: SourceCourse)
    requires Get(Offerings(catalog, course.courseId), course.offerNbr).None?
    ensures SourcePhrase(catalog, course) ==
      "No course" + AliasSuffix(Titles(Offerings(catalog, course.courseId))) + " P [[--:--:--:---]]"
    ensures StartsWith(SourcePhrase(catalog, course), "No course")
    ensures EndsWith(SourcePhrase(catalog, course), " P [[--:--:--:---]]")
    ensures EndsWith(SourcePhrase(catalog, course), "]]")
  {
    var offerings := Offerings(catalog, course.courseId);
    var aliases := AliasSuffix(AliasTitles(offerings, course.offerNbr));
    assert SourcePhrase(catalog, course) == "No course" + aliases + " P [[--:--:--:---]]";
    AliasTitlesUnmatched(offerings, course.offerNbr);
    assert " P [[--:--:--:---]]"[17..] == "]]";
    UnresolvedShape(aliases, " P [[--:--:--:---]]", "]]");
  }

  /** A resolved source course's phrase starts with its label and ends with the letter grade
      of the minimum GPA and the offering's requirement code. */
  lemma SourcePhraseResolved(catalog: Catalog, course: SourceCourse)
    requires Get(Offerings(catalog, course.courseId), course.offerNbr).Some?
    ensures var o := Get(Offerings(catalog, course.courseId), course.offerNbr).value;
      && StartsWith(SourcePhrase(catalog, course), o.course)
      && EndsWith(SourcePhrase(catalog, course), " " + MinGrade(course.minGpa) + " [" + FormatRequirements(o.requirements) + "]")
      && !EndsWith(SourcePhrase(catalog, course), "]]")
  {
    var offerings := Offerings(catalog, course.courseId);
    var aliases := AliasSuffix(AliasTitles(offerings, course.offerNbr));
    var o := Get(offerings, course.offerNbr).value;
    ResolvedShape(o.course, aliases, MinGrade(course.minGpa), FormatRequirements(o.requirements));
  }

  /** In a cache built as a dict of dicts, the phrase of the offering at position `p` is its
      label, the labels of the course's other offerings (those before it, then those after
      it) as aliases, the letter grade of the minimum GPA and the bracketed code. */
  lemma SourcePhraseAliases(catalog: Catalog, course: SourceCourse, p: nat)
    requires ValidCatalog(catalog)
    requires p < |Offerings(catalog, course.courseId)| && Offerings(catalog, course.courseId)[p].0 == course.offerNbr
    ensures var offerings := Offerings(catalog, course.courseId);
      var o := offerings[p].1;
      SourcePhrase(catalog, course) ==
        o.course + AliasSuffix(Titles(offerings[..p]) + Titles(offerings[p + 1..]))
        + " " + MinGrade(course.minGpa) + " [" + FormatRequirements(o.requirements) + "]"
  {
    var offerings := Offerings(catalog, course.courseId);
    assert course.courseId in catalog && UniqueKeys(offerings);
    AliasTitlesAround(offerings, course.offerNbr, p);
    GetAt(offerings, p);
  }

  /** The text tells the two apart: a source phrase ends in `]]` exactly when its course is
      not in the cache. */
  lemma SourcePhraseResolution(catalog: Catalog, course: SourceCourse)
    ensures Get(Offerings(catalog, course.courseId), course.offerNbr).None? <==>
      EndsWith(SourcePhrase(catalog, course), "]]")
  {
    if Get(Offerings(catalog, course.courseId), course.offerNbr).None? {
      SourcePhraseUnresolved(catalog, course);
    } else {
      SourcePhraseResolved(catalog, course);
    }
  }

  /** An unresolved destination course lists every cached offering of the course as an alias,
      keeps the initial `False` flags and has an empty code. */
  lemma DestinationPhraseUnresolved(catalog: Catalog, course: DestinationCourse)
    requires Get(Offerings(catalog, course.courseId), course.offerNbr).None?
    ensures DestinationPhrase(catalog, course) ==
      "No course" + AliasSuffix(Titles(Offerings(catalog, course.courseId))) + " FalseFalse []"
    ensures StartsWith(DestinationPhrase(catalog, course), "No course")
    ensures EndsWith(DestinationPhrase(catalog, course), " FalseFalse []")
    ensures EndsWith(DestinationPhrase(catalog, course), "[]")
  {
    var offerings := Offerings(catalog, course.courseId);
    var aliases := AliasSuffix(AliasTitles(offerings, course.offerNbr));
    assert DestinationPhrase(catalog, course) == "No course" + aliases + " FalseFalse []";
    AliasTitlesUnmatched(offerings, course.offerNbr);
    assert " FalseFalse []"[12..] == "[]";
    UnresolvedShape(aliases, " FalseFalse []", "[]");
  }

  /** A resolved destination course's phrase starts with its label and ends with `M` or `-`
      for a message-only course, `B` or `-` for blanket credit, and its requirement code. */
  lemma DestinationPhraseResolved(catalog: Catalog, course: DestinationCourse)
    requires Get(Offerings(catalog, course.courseId), course.offerNbr).Some?
    ensures var o := Get(Offerings(catalog, course.courseId), course.offerNbr).value;
      && StartsWith(DestinationPhrase(catalog, course), o.course)
      && EndsWith(DestinationPhrase(catalog, course),
                  " " + (if o.isMesg then "M" else "-") + (if o.isBkcr then "B" else "-")
                  + " [" + FormatRequirements(o.requirements) + "]")
      && !EndsWith(DestinationPhrase(catalog, course), "[]")
  {
    var offerings := Offerings(catalog, course.courseId);
    var aliases := AliasSuffix(AliasTitles(offerings, course.offerNbr));
    var o := Get(offerings, course.offerNbr).value;
    var m, b := (if o.isMesg then "M" else "-"), (if o.isBkcr then "B" else "-");
    var code := FormatRequirements(o.requirements);
    assert " " + m + b + " [" + code + "]" == " " + (m + b) + " [" + code + "]";
    ResolvedShape(o.course, aliases, m + b, code);
    DestinationPhraseFlags(o.course, aliases, m, b, code);
  }

  /** Regrouping the two flags; a lemma of its own so that the solver does it without the
      phrase's other facts in scope. */
  lemma DestinationPhraseFlags(course: string, aliases: string, m: string, b: string, code: string)
    ensures course + aliases + " " + m + b + " [" + code + "]" == course + aliases + " " + (m + b) + " [" + code + "]"
  {
  }

  /** In a cache built as a dict of dicts, the phrase of the offering at position `p` is its
      label, the labels of the course's other offerings as aliases, its two flags and the
      bracketed code. */
  lemma DestinationPhraseAliases(catalog: Catalog, course: DestinationCourse, p: nat)
    requires ValidCatalog(catalog)
    requires p < |Offerings(catalog, course.courseId)| && Offerings(catalog, course.courseId)[p].0 == course.offerNbr
    ensures var offerings := Offerings(catalog, course.courseId);
      var o := offerings[p].1;
      DestinationPhrase(catalog, course) ==
        o.course + AliasSuffix(Titles(offerings[..p]) + Titles(offerings[p + 1..]))
        + " " + (if o.isMesg then "M" else "-") + (if o.isBkcr then "B" else "-")
        + " [" + FormatRequirements(o.requirements) + "]"
  {
    var offerings := Offerings(catalog, course.courseId);
    assert course.courseId in catalog && UniqueKeys(offerings);
    AliasTitlesAround(offerings, course.offerNbr, p);
    GetAt(offerings, p);
  }

  /** A destination phrase ends in `[]` exactly when its course is not in the cache. */
  lemma DestinationPhraseResolution(catalog: Catalog, course: DestinationCourse)
    ensures Get(Offerings(catalog, course.courseId), course.offerNbr).None? <==>
      EndsWith(DestinationPhrase(catalog, course), "[]")
  {
    if Get(Offerings(catalog, course.courseId), course.offerNbr).None? {
      DestinationPhraseUnresolved(catalog, course);
    } else {
      DestinationPhraseResolved(catalog, course);
    }
  }

  /** With the cache built from the course rows, a source phrase is the placeholder exactly
      when no row had the referenced course id and offer number. */
  lemma SourceUnresolvedIffNoRow(rows: seq<CourseRow>, course: SourceCourse)
    ensures EndsWith(SourcePhrase(CatalogOf(rows), course), "]]") <==>
      forall i :: 0 <= i < |rows| ==> !Keyed(rows[i], course.courseId, course.offerNbr)
  {
    SourcePhraseResolution(CatalogOf(rows), course);
    CatalogOfLookup(rows, course.courseId, course.offerNbr);
  }

  /** The same for destination phrases. */
  lemma DestinationUnresolvedIffNoRow(rows: seq<CourseRow>, course: DestinationCourse)
    ensures EndsWith(DestinationPhrase(CatalogOf(rows), course), "[]") <==>
      forall i :: 0 <= i < |rows| ==> !Keyed(rows[i], course.courseId, course.offerNbr)
  {
    DestinationPhraseResolution(CatalogOf(rows), course);
    CatalogOfLookup(rows, course.courseId, course.offerNbr);
  }
}
