/** A worked example: one course with a regular and an honours offering, and a rule that
    maps the regular offering (minimum GPA 2.0) to the honours one. Each offering shows up
    as the other's alias; only the regular one has a requirements dict. */
module WorkedExample {
  import opened Options
  import opened Text
  import opened OrderedDicts
  import opened RequirementDicts
  import opened CourseCatalog
  import opened Descriptions

  const Honors := Offering("ENGL 101H", false, false, None)
  const Regular := Offering("ENGL 101", false, false, Some(Requirements(Some("EC"), false, Some([]), ["BA-ENGL"])))
  const EnglishOfferings: Dict<OfferNbr, Offering> := [(1, Regular), (2, Honors)]

  /** Both offer numbers resolve, to their own offerings. */
  lemma EnglishLookups()
    ensures Get(EnglishOfferings, 1) == Some(Regular)
    ensures Get(EnglishOfferings, 2) == Some(Honors)
  {
    assert EnglishOfferings[..1] == [(1, Regular)];
  }

  /** Each offering's alias list is the other offering's label. */
  lemma EnglishAliases()
    ensures AliasSuffix(AliasTitles(EnglishOfferings, 1)) == " (=ENGL 101H)"
    ensures AliasSuffix(AliasTitles(EnglishOfferings, 2)) == " (=ENGL 101)"
  {
    assert EnglishOfferings[..1] == [(1, Regular)];
    assert EnglishOfferings[..1][..0] == [];
    assert AliasTitles(EnglishOfferings[..1], 1) == [];
    assert AliasTitles(EnglishOfferings, 1) == ["ENGL 101H"];
    assert AliasTitles(EnglishOfferings[..1], 2) == ["ENGL 101"];
    assert AliasTitles(EnglishOfferings, 2) == ["ENGL 101"];
    assert Join(["ENGL 101H"], ",") == "ENGL 101H";
    assert Join(["ENGL 101"], ",") == "ENGL 101";
  }

  const Writing := Offering("ENGL 101W", false, false, None)

  /** With a third, writing-intensive offering the regular one has two aliases, joined by a
      comma with no space. */
  lemma EnglishTwoAliases()
    ensures AliasSuffix(AliasTitles(EnglishOfferings + [(3, Writing)], 1)) == " (=ENGL 101H,ENGL 101W)"
  {
    var three := EnglishOfferings + [(3, Writing)];
    assert three[..2] == EnglishOfferings;
    assert AliasTitles(EnglishOfferings, 1) == ["ENGL 101H"] by {
      assert EnglishOfferings[..1] == [(1, Regular)];
      assert EnglishOfferings[..1][..0] == [];
      assert AliasTitles(EnglishOfferings[..1], 1) == [];
    }
    assert AliasTitles(three, 1) == ["ENGL 101H", "ENGL 101W"];
    var aliases := ["ENGL 101H", "ENGL 101W"];
    assert Join(aliases, ",") == "ENGL 101H" + "," + "ENGL 101W";
    assert AliasSuffix(aliases) == " (=" + Join(aliases, ",") + ")";
    TwoAliasText();
  }

  lemma TwoAliasText()
    ensures " (=" + ("ENGL 101H" + "," + "ENGL 101W") + ")" == " (=ENGL 101H,ENGL 101W)"
  {
  }

  /** One plan and pathway `EC` for the regular offering; the sentinel for the null column. */
  lemma EnglishCodes()
    ensures FormatRequirements(Regular.requirements) == "EC:--:--:001"
    ensures FormatRequirements(Honors.requirements) == "--:--:--:000"
  {
    assert Decimal(1) == "1";
    assert PadCount(1) == "001";
  }

  const EnglishCatalog: Catalog := map[100 := EnglishOfferings]

  /** A resolved source phrase, put together from its pieces. */
  lemma SourcePhraseFrom(catalog: Catalog, course: SourceCourse, o: Offering, aliases: string, grade: string, code: string)
    requires Get(Offerings(catalog, course.courseId), course.offerNbr) == Some(o)
    requires AliasSuffix(AliasTitles(Offerings(catalog, course.courseId), course.offerNbr)) == aliases
    requires MinGrade(course.minGpa) == grade && FormatRequirements(o.requirements) == code
    ensures SourcePhrase(catalog, course) == o.course + aliases + " " + grade + " [" + code + "]"
  {
  }

  /** A resolved destination phrase, put together from its pieces. */
  lemma DestinationPhraseFrom(catalog: Catalog, course: DestinationCourse, o: Offering, aliases: string, code: string)
    requires Get(Offerings(catalog, course.courseId), course.offerNbr) == Some(o)
    requires AliasSuffix(AliasTitles(Offerings(catalog, course.courseId), course.offerNbr)) == aliases
    requires FormatRequirements(o.requirements) == code
    ensures DestinationPhrase(catalog, course) == o.course + aliases + " "
      + (if o.isMesg then "M" else "-") + (if o.isBkcr then "B" else "-") + " [" + code + "]"
  {
  }

  /** The concatenation of the source phrase's pieces, kept apart so that the solver
      evaluates it without the phrase lemmas' other facts in scope. */
  lemma SourceText()
    ensures "ENGL 101" + " (=ENGL 101H)" + " " + "C" + " [" + "EC:--:--:001" + "]" == "ENGL 101 (=ENGL 101H) C [EC:--:--:001]"
  {
  }

  /** The same for the destination phrase. */
  lemma DestinationText()
    ensures "ENGL 101H" + " (=ENGL 101)" + " " + "-" + "-" + " [" + "--:--:--:000" + "]" == "ENGL 101H (=ENGL 101) -- [--:--:--:000]"
  {
  }

  /** The source phrase: label, alias, the grade for 2.0 and the code. */
  lemma EnglishSourcePhrase()
    ensures SourcePhrase(EnglishCatalog, SourceCourse(100, 1, 2.0)) == "ENGL 101 (=ENGL 101H) C [EC:--:--:001]"
  {
    SourceText();
    assert Offerings(EnglishCatalog, 100) == EnglishOfferings;
    EnglishLookups();
    EnglishAliases();
    MinGradeOfTwo();
    EnglishCodes();
    SourcePhraseFrom(EnglishCatalog, SourceCourse(100, 1, 2.0), Regular, " (=ENGL 101H)", "C", "EC:--:--:001");
  }

  /** The destination phrase: label, alias, two `-` flags and the sentinel code. */
  lemma EnglishDestinationPhrase()
    ensures DestinationPhrase(EnglishCatalog, DestinationCourse(100, 2)) == "ENGL 101H (=ENGL 101) -- [--:--:--:000]"
  {
    DestinationText();
    assert Offerings(EnglishCatalog, 100) == EnglishOfferings;
    EnglishLookups();
    EnglishAliases();
    EnglishCodes();
    DestinationPhraseFrom(EnglishCatalog, DestinationCourse(100, 2), Honors, " (=ENGL 101)", "--:--:--:000");
  }

  /** The whole description of the rule. */
  lemma EnglishRule()
    ensures Describe(EnglishCatalog, Some(RuleRow("K", "D", [SourceCourse(100, 1, 2.0)], [DestinationCourse(100, 2)])))
      == Described("K", "D", "ENGL 101 (=ENGL 101H) C [EC:--:--:001]" + " => " + "ENGL 101H (=ENGL 101) -- [--:--:--:000]")
  {
    var src := [SourceCourse(100, 1, 2.0)];
    var dst := [DestinationCourse(100, 2)];
    var s := "ENGL 101 (=ENGL 101H) C [EC:--:--:001]";
    var d := "ENGL 101H (=ENGL 101) -- [--:--:--:000]";
    assert SourcePhrases(EnglishCatalog, src) == [s] by {
      assert src[..0] == [];
      EnglishSourcePhrase();
    }
    assert DestinationPhrases(EnglishCatalog, dst) == [d] by {
      assert dst[..0] == [];
      EnglishDestinationPhrase();
    }
  }
}
