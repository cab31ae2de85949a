/**
 Lines in the format the vision model replies with, and what the extractor
 gives for them. They record what the code does with ranges, list markers,
 summary lines and lines without a number. Each line is written as its pieces
 around the colon, which is how the lemmas about `ParseLine` take it apart.
 */
module Samples {
  import opened Wrappers
  import opened PyText
  import opened PyInt
  import opened Partial
  import opened CalorieExtract

  /** The unit after the number, " calories". */
  const Unit: string := " " + Keyword

  /** "Chicken: 100-200 calories" */
  const ChickenLine: string := "Chicken" + [Colon] + (" " + "100" + "-" + "200" + Unit)
  /** "- Rice: 280 calories" */
  const RiceLine: string := "- Rice" + [Colon] + (" " + "280" + Unit)
  /** "Total calories: 280 calories" */
  const TotalLine: string := "Total calories" + [Colon] + (" " + "280" + Unit)
  /** "Estimated: unknown calories" */
  const UnknownLine: string := "Estimated" + [Colon] + (" unknown" + Unit)

  /** A range is read as the concatenation of its two ends, not averaged. */
  lemma RangeSample()
    ensures ParseLine(ChickenLine) == Some(Record("Chicken", 100200))
  {
    UnitFacts();
    CandidateSuffix(" " + "100" + "-" + "200", Unit);
    CandidateSuffix("Chicken" + [Colon], " " + "100" + "-" + "200" + Unit);
    RangeConcatenated("Chicken", " ", "100", "-", "200", Unit);
    ChickenName();
    Value100200();
  }

  /** A list marker stays part of the name. */
  lemma MarkerSample()
    ensures ParseLine(RiceLine) == Some(Record("- Rice", 280))
  {
    UnitFacts();
    CandidateSuffix(" " + "280", Unit);
    CandidateSuffix("- Rice" + [Colon], " " + "280" + Unit);
    NumberRead("- Rice", " ", "280", Unit);
    RiceName();
    Value280();
  }

  /** A summary line is a record like any other. */
  lemma SummaryLineSample()
    ensures ParseLine(TotalLine) == Some(Record("Total calories", 280))
  {
    UnitFacts();
    CandidateSuffix(" " + "280", Unit);
    CandidateSuffix("Total calories" + [Colon], " " + "280" + Unit);
    NumberRead("Total calories", " ", "280", Unit);
    TotalName();
    Value280();
  }

  /** A reply ending in a summary line: the summary is recorded and added to
      the total, so the meal is counted twice over. */
  lemma SummarySample()
    ensures Parse(RiceLine + [Newline] + TotalLine)
         == Extraction([Record("- Rice", 280), Record("Total calories", 280)], 560)
  {
    SummarySplit();
    MarkerSample();
    SummaryLineSample();
    TwoRecords(RiceLine, TotalLine, Record("- Rice", 280), Record("Total calories", 280));
  }

  /** A candidate line without digits after its colon gives nothing. */
  lemma NoNumberSample()
    ensures ParseLine(UnknownLine) == None
  {
    UnknownFacts();
    SingleColonLine("Estimated", " unknown" + Unit);
  }

  lemma UnknownFacts()
    ensures IsCandidate("Estimated" + [Colon] + (" unknown" + Unit))
    ensures Colon !in " unknown" + Unit
    ensures Digits(" unknown" + Unit) == []
  {
    UnitFacts();
    CandidateSuffix(" unknown", Unit);
    CandidateSuffix("Estimated" + [Colon], " unknown" + Unit);
    DigitsOf(" unknown");
    DigitsOf(Unit);
    DigitsAppend(" unknown", Unit);
  }

  lemma SummarySplit()
    ensures Split(RiceLine + [Newline] + TotalLine, Newline) == [RiceLine, TotalLine]
  {
    UnitFacts();
    assert Newline !in RiceLine && Newline !in TotalLine;
    assert Join([RiceLine, TotalLine], Newline) == RiceLine + [Newline] + TotalLine;
    SplitJoin([RiceLine, TotalLine], Newline);
  }

  /** Two lines that both produce a record give both records, in order. */
  lemma TwoRecords(a: string, b: string, x: Record, y: Record)
    requires ParseLine(a) == Some(x) && ParseLine(b) == Some(y)
    ensures ParseLines([a, b]) == Extraction([x, y], x.calories + y.calories)
  {
    TwoIngredients(a, b, x, y);
    SumOfTwo(x, y);
  }

  lemma TwoIngredients(a: string, b: string, x: Record, y: Record)
    requires ParseLine(a) == Some(x) && ParseLine(b) == Some(y)
    ensures ParseLines([a, b]).ingredients == [x, y]
  {
    IngredientsAreFilterMap([a, b]);
    FilterMapPair(ParseLine, a, b, x, y);
  }

  lemma SumOfTwo(x: Record, y: Record)
    ensures SumCalories([x, y]) == x.calories + y.calories
  {
    assert [x, y][..1] == [x] && [x][..0] == [];
    assert SumCalories([x]) == x.calories;
  }

  lemma UnitFacts()
    ensures IsCandidate(Unit)
    ensures Colon !in Unit && Newline !in Unit && NoDigit(Unit)
  {
    KeywordCandidate();
  }

  lemma ChickenName() ensures Strip("Chicken") == "Chicken" {
    StripPlain("Chicken");
  }

  lemma RiceName() ensures Strip("- Rice") == "- Rice" {
    StripPlain("- Rice");
  }

  lemma TotalName() ensures Strip("Total calories") == "Total calories" {
    StripPlain("Total calories");
  }

  lemma Value100200()
    ensures DecimalValue("100") * Pow10(|"200"|) + DecimalValue("200") == 100200
  {
    assert DecimalValue("100") == 100 && DecimalValue("200") == 200 by {
      assert "100"[..2] == "10" && "10"[..1] == "1" && "1"[..0] == "";
      assert "200"[..2] == "20" && "20"[..1] == "2" && "2"[..0] == "";
    }
    assert Pow10(|"200"|) == 1000;
  }

  lemma Value280()
    ensures DecimalValue("280") == 280
  {
    assert "280"[..2] == "28" && "28"[..1] == "2" && "2"[..0] == "";
  }
}
