/**
 The calorie extractor of the upload handler: it turns the free-text reply of
 the vision model into an ordered list of `{name, calories}` records and a
 running total.  The reply is split on line feeds; a line whose lower-cased
 form mentions "calories" and that contains a colon yields a record named by
 the stripped text before the first colon, whose calories are the digits found
 between the first and second colon read as one decimal number.  A line whose
 digits cannot be read as a number is skipped silently.
 */
module CalorieExtract {
  import opened Wrappers
  import opened PyText
  import opened PyInt
  import opened Partial

  /** One entry of `ingredients_estimated`. */
  datatype Record = Record(name: string, calories: nat)

  /** The pair `(ingredients, total_calories)` built by the loop. */
  datatype Extraction = Extraction(ingredients: seq<Record>, totalCalories: nat)

  const Keyword: string := "calories"
  const Newline: char := '\n'
  const Colon: char := ':'

  const Empty: Extraction := Extraction([], 0)

  /** Sum of the calories of a list of records. */
  function SumCalories(rs: seq<Record>): nat {
    if |rs| == 0 then 0 else SumCalories(rs[..|rs| - 1]) + rs[|rs| - 1].calories
  }

  /** The line filter: the lower-cased line mentions "calories". */
  predicate IsCandidate(line: string) {
    Contains(Lower(line), Keyword)
  }

  /** The keyword occurs at position `i` of `line`, each of its letters in
      either case. */
  predicate KeywordAnyCaseAt(line: string, i: int) {
    && 0 <= i && i + |Keyword| <= |line|
    && forall j :: 0 <= j < |Keyword| ==>
         line[i + j] == Keyword[j] || line[i + j] == UpperChar(Keyword[j])
  }

  /** The filter is a case-insensitive search for the keyword: a line passes
      exactly when "calories" occurs in it with each letter in either case. */
  lemma CandidateCaseInsensitive(line: string)
    ensures IsCandidate(line) <==> exists i :: KeywordAnyCaseAt(line, i)
  {
    ContainsAt(Lower(line), Keyword);
    if IsCandidate(line) {
      var i :| 0 <= i <= |Lower(line)| && Keyword <= Lower(line)[i..];
      KeywordAt(line, i);
    }
    if exists i :: KeywordAnyCaseAt(line, i) {
      var i :| KeywordAnyCaseAt(line, i);
      KeywordAt(line, i);
    }
  }

  lemma KeywordLetters()
    ensures forall j :: 0 <= j < |Keyword| ==> 'a' <= Keyword[j] <= 'z'
  {
  }

  /** The keyword is a prefix of the lower-cased line from `i` on exactly when
      it occurs there in any case. */
  lemma KeywordAt(line: string, i: int)
    requires 0 <= i <= |line|
    ensures Keyword <= Lower(line)[i..] <==> KeywordAnyCaseAt(line, i)
  {
    var low := Lower(line);
    if i + |Keyword| <= |line| {
      KeywordLetters();
      forall j | 0 <= j < |Keyword|
        ensures low[i + j] == Keyword[j] <==> line[i + j] == Keyword[j] || line[i + j] == UpperChar(Keyword[j])
      {
        LowerCharMatches(line[i + j], Keyword[j]);
      }
      if Keyword <= low[i..] {
        forall j | 0 <= j < |Keyword| ensures low[i + j] == Keyword[j] {
          assert low[i..][j] == low[i + j];
        }
      }
      if KeywordAnyCaseAt(line, i) {
        assert low[i..][..|Keyword|] == Keyword;
      }
    }
  }

  /** What one line of the reply contributes: a record, or nothing when the
      line is filtered out, has no colon, or its second colon-separated field
      does not read as a number. */
  function ParseLine(line: string): (r: Option<Record>)
    ensures r.Some? ==> IsCandidate(line) && Colon in line
  {
    if !IsCandidate(line) then None
    else
      var parts := Split(line, Colon);
      if |parts| < 2 then None
      else
        var name := Strip(parts[0]);
        match IntOfDigits(Digits(parts[1]))
        case None => None
        case Some(calories) => Some(Record(name, calories))
  }

  /** One iteration of the loop: append the line's record, if any, and add its
      calories to the running total. */
  function Step(acc: Extraction, line: string): Extraction {
    match ParseLine(line)
    case None => acc
    case Some(rec) => Extraction(acc.ingredients + [rec], acc.totalCalories + rec.calories)
  }

  /** The loop over a list of lines, from an empty list and a zero total. */
  function ParseLines(lines: seq<string>): (r: Extraction)
    ensures r.totalCalories == SumCalories(r.ingredients)
    ensures |r.ingredients| <= |lines|
  {
    if |lines| == 0 then Empty
    else Step(ParseLines(lines[..|lines| - 1]), lines[|lines| - 1])
  }

  /** The extractor on the whole reply. */
  function Parse(text: string): (r: Extraction)
    ensures r.totalCalories == SumCalories(r.ingredients)
    ensures |r.ingredients| <= |Split(text, Newline)|
  {
    ParseLines(Split(text, Newline))
  }

  /** The loop as written, with a mutable list and total. */
  method ExtractCalories(text: string) returns (ingredients: seq<Record>, totalCalories: nat)
    ensures totalCalories == SumCalories(ingredients)
    ensures Extraction(ingredients, totalCalories) == Parse(text)
  {
    var lines := Split(text, Newline);
    ingredients, totalCalories := ExtractLines(lines);
  }

  /** The `for` loop over the lines of the reply. */
  method ExtractLines(lines: seq<string>) returns (ingredients: seq<Record>, totalCalories: nat)
    ensures totalCalories == SumCalories(ingredients)
    ensures Extraction(ingredients, totalCalories) == ParseLines(lines)
  {
    totalCalories := 0;
    ingredients := [];
    for i := 0 to |lines|
      invariant Extraction(ingredients, totalCalories) == ParseLines(lines[..i])
    {
      OneMoreLine(lines, i);
      ingredients, totalCalories := ProcessLine(lines[i], ingredients, totalCalories);
    }
    assert lines[..|lines|] == lines;
  }

  /** The body of the loop for one line.  Every record appended comes with
      its calories added, so a total that was the sum of the list stays the
      sum of the list; the list only grows, by at most the one record. */
  method ProcessLine(line: string, ingredients: seq<Record>, totalCalories: nat)
    returns (ingredients': seq<Record>, totalCalories': nat)
    requires totalCalories == SumCalories(ingredients)
    ensures totalCalories' == SumCalories(ingredients')
    ensures ingredients <= ingredients' && |ingredients'| <= |ingredients| + 1
    ensures |ingredients'| == |ingredients| + 1 <==> ParseLine(line).Some?
    ensures Extraction(ingredients', totalCalories') == Step(Extraction(ingredients, totalCalories), line)
  {
    match ParseLine(line)
    case None =>
      ingredients', totalCalories' := ingredients, totalCalories;
    case Some(rec) =>
      ingredients' := ingredients + [rec];
      totalCalories' := totalCalories + rec.calories;
      assert ingredients'[..|ingredients|] == ingredients;
  }

  /** Extending the processed prefix by one line is one more `Step`. */
  lemma OneMoreLine(lines: seq<string>, i: int)
    requires 0 <= i < |lines|
    ensures ParseLines(lines[..i + 1]) == Step(ParseLines(lines[..i]), lines[i])
  {
    assert lines[..i + 1][..i] == lines[..i];
  }

  // ---------------------------------------------------------------------------
  // A single line, described without Split

  /** The text before the first colon. */
  function LabelField(line: string): string
    requires Colon in line
  {
    line[..FirstIndex(line, Colon)]
  }

  /** The text between the first colon and the next colon (or the end). */
  function ValueField(line: string): string
    requires Colon in line
  {
    var rest := line[FirstIndex(line, Colon) + 1..];
    if Colon in rest then rest[..FirstIndex(rest, Colon)] else rest
  }

  /** Exactly when a line yields a record, and which record it is. */
  lemma ParseLineCharacterised(line: string)
    ensures ParseLine(line).Some? <==>
      && IsCandidate(line)
      && Colon in line
      && 0 < |Digits(ValueField(line))| <= MaxStrDigits
    ensures ParseLine(line).Some? ==>
      ParseLine(line).value == Record(Strip(LabelField(line)), DecimalValue(Digits(ValueField(line))))
  {
    if Colon in line {
      SplitFields(line);
    }
  }

  /** The first two pieces of `line.split(":")` are the label and value
      fields. */
  lemma SplitFields(line: string)
    requires Colon in line
    ensures |Split(line, Colon)| >= 2
    ensures Split(line, Colon)[0] == LabelField(line)
    ensures Split(line, Colon)[1] == ValueField(line)
  {
    SplitFirst(line, Colon);
    SplitSecond(line, Colon);
  }

  /** Whatever follows a second colon on a line has no influence on the record. */
  lemma SecondColonIgnored(head: string, value: string, tail1: string, tail2: string)
    requires Colon !in head && Colon !in value
    requires IsCandidate(head + [Colon] + value + [Colon] + tail1)
    requires IsCandidate(head + [Colon] + value + [Colon] + tail2)
    ensures ParseLine(head + [Colon] + value + [Colon] + tail1)
         == ParseLine(head + [Colon] + value + [Colon] + tail2)
  {
    FieldsOf(head, value, tail1);
    FieldsOf(head, value, tail2);
    ParseLineCharacterised(head + [Colon] + value + [Colon] + tail1);
    ParseLineCharacterised(head + [Colon] + value + [Colon] + tail2);
  }

  lemma SingleColonFields(head: string, value: string)
    requires Colon !in head && Colon !in value
    ensures Colon in head + [Colon] + value
    ensures LabelField(head + [Colon] + value) == head
    ensures ValueField(head + [Colon] + value) == value
  {
    FirstOfConcat(head, Colon, value);
    assert (head + [Colon] + value)[|head| + 1..] == value;
  }

  /** A range "lo-hi" (or "lo to hi", or any digit-free text between the two
      numbers) is not averaged: the digits of both ends are read together as
      one number, so "100-200" gives 100 * 1000 + 200. */
  lemma RangeConcatenated(head: string, lead: string, lo: string, between: string, hi: string, tail: string)
    requires Colon !in head && Colon !in lead && Colon !in between && Colon !in tail
    requires NoDigit(lead) && NoDigit(between) && NoDigit(tail)
    requires AllDigits(lo) && AllDigits(hi) && 0 < |lo| + |hi| <= MaxStrDigits
    requires IsCandidate(head + [Colon] + (lead + lo + between + hi + tail))
    ensures var r := ParseLine(head + [Colon] + (lead + lo + between + hi + tail));
      && r.Some?
      && r.value.name == Strip(head)
      && r.value.calories == DecimalValue(lo) * Pow10(|hi|) + DecimalValue(hi)
  {
    var value := lead + lo + between + hi + tail;
    ColonFreeRange(lead, lo, between, hi, tail);
    DigitsOfRange(lead, lo, between, hi, tail);
    SingleColonLine(head, value);
    ValueOfConcat(lo, hi);
  }

  /** A line "name: N calories" gives the record (name, N). */
  lemma NumberRead(head: string, lead: string, number: string, tail: string)
    requires Colon !in head && Colon !in lead && Colon !in tail
    requires NoDigit(lead) && NoDigit(tail)
    requires AllDigits(number) && 0 < |number| <= MaxStrDigits
    requires IsCandidate(head + [Colon] + (lead + number + tail))
    ensures ParseLine(head + [Colon] + (lead + number + tail))
         == Some(Record(Strip(head), DecimalValue(number)))
  {
    ColonFreeNumber(lead, number, tail);
    DigitsOfNumber(lead, number, tail);
    SingleColonLine(head, lead + number + tail);
  }

  lemma ColonFreeNumber(lead: string, number: string, tail: string)
    requires Colon !in lead && Colon !in tail
    requires AllDigits(number)
    ensures Colon !in lead + number + tail
  {
    assert forall k :: 0 <= k < |number| ==> number[k] != Colon;
  }

  lemma DigitsOfNumber(lead: string, number: string, tail: string)
    requires NoDigit(lead) && NoDigit(tail)
    requires AllDigits(number)
    ensures Digits(lead + number + tail) == number
  {
    DigitsOf(lead); DigitsOf(number); DigitsOf(tail);
    assert Digits(lead + number) == number by { DigitsAppend(lead, number); }
    DigitsAppend(lead + number, tail);
  }

  /** A line whose end passes the filter passes it too. */
  lemma CandidateSuffix(front: string, rest: string)
    requires IsCandidate(rest)
    ensures IsCandidate(front + rest)
  {
    LowerConcat(front, rest);
    ContainsInSuffix(Lower(front), Lower(rest), Keyword);
  }

  /** The keyword itself, after a blank, passes the filter. */
  lemma KeywordCandidate()
    ensures IsCandidate(" " + Keyword)
  {
    var low := Lower(" " + Keyword);
    assert low[1..] == Keyword;
    OccursAt(low, Keyword, 1);
  }

  lemma ColonFreeRange(lead: string, lo: string, between: string, hi: string, tail: string)
    requires Colon !in lead && Colon !in between && Colon !in tail
    requires AllDigits(lo) && AllDigits(hi)
    ensures Colon !in lead + lo + between + hi + tail
  {
    assert forall k :: 0 <= k < |lo| ==> lo[k] != Colon;
    assert forall k :: 0 <= k < |hi| ==> hi[k] != Colon;
  }

  lemma DigitsOfRange(lead: string, lo: string, between: string, hi: string, tail: string)
    requires NoDigit(lead) && NoDigit(between) && NoDigit(tail)
    requires AllDigits(lo) && AllDigits(hi)
    ensures Digits(lead + lo + between + hi + tail) == lo + hi
  {
    DigitsOf(lead); DigitsOf(lo); DigitsOf(between); DigitsOf(hi); DigitsOf(tail);
    assert Digits(lead + lo) == lo by { DigitsAppend(lead, lo); }
    assert Digits(lead + lo + between) == lo by { DigitsAppend(lead + lo, between); }
    assert Digits(lead + lo + between + hi) == lo + hi by { DigitsAppend(lead + lo + between, hi); }
    DigitsAppend(lead + lo + between + hi, tail);
  }

  /** A candidate line with a single colon: its record is read from the two
      sides of the colon. */
  lemma SingleColonLine(head: string, value: string)
    requires Colon !in head && Colon !in value
    requires IsCandidate(head + [Colon] + value)
    ensures ParseLine(head + [Colon] + value)
         == if 0 < |Digits(value)| <= MaxStrDigits
            then Some(Record(Strip(head), DecimalValue(Digits(value))))
            else None
  {
    SingleColonFields(head, value);
    ParseLineCharacterised(head + [Colon] + value);
  }

  lemma FieldsOf(head: string, value: string, tail: string)
    requires Colon !in head && Colon !in value
    ensures Colon in head + [Colon] + value + [Colon] + tail
    ensures LabelField(head + [Colon] + value + [Colon] + tail) == head
    ensures ValueField(head + [Colon] + value + [Colon] + tail) == value
  {
    var line := head + [Colon] + value + [Colon] + tail;
    assert line == head + [Colon] + (value + [Colon] + tail);
    FirstOfConcat(head, Colon, value + [Colon] + tail);
    var rest := line[|head| + 1..];
    assert rest == value + [Colon] + tail;
    FirstOfConcat(value, Colon, tail);
  }

  // ---------------------------------------------------------------------------
  // The whole reply

  /** The loop over two consecutive blocks of lines is the loop over the first
      block followed by the loop over the second: records keep the order of
      their lines and totals add up. */
  lemma ParseLinesAppend(a: seq<string>, b: seq<string>)
    ensures ParseLines(a + b).ingredients == ParseLines(a).ingredients + ParseLines(b).ingredients
    ensures ParseLines(a + b).totalCalories == ParseLines(a).totalCalories + ParseLines(b).totalCalories
  {
    IngredientsAreFilterMap(a + b);
    IngredientsAreFilterMap(a);
    IngredientsAreFilterMap(b);
    FilterMapAppend(ParseLine, a, b);
    SumCaloriesAppend(ParseLines(a).ingredients, ParseLines(b).ingredients);
  }

  /** The sum over two lists of records is the sum of their sums. */
  lemma {:induction false} SumCaloriesAppend(xs: seq<Record>, ys: seq<Record>)
    ensures SumCalories(xs + ys) == SumCalories(xs) + SumCalories(ys)
  {
    if |ys| == 0 {
      assert xs + ys == xs;
    } else {
      var ys' := ys[..|ys| - 1];
      assert (xs + ys)[..|xs + ys| - 1] == xs + ys';
      SumCaloriesAppend(xs, ys');
    }
  }

  /** A line that produces a record appends it to the list and adds its
      calories to the total, whatever came before. */
  lemma RecordAppended(before: seq<string>, line: string, rec: Record)
    requires ParseLine(line) == Some(rec)
    ensures ParseLines(before + [line]).ingredients == ParseLines(before).ingredients + [rec]
    ensures ParseLines(before + [line]).totalCalories == ParseLines(before).totalCalories + rec.calories
  {
    assert (before + [line])[..|before|] == before;
  }

  /** A line that yields nothing (no keyword, no colon, no readable number)
      leaves the result of the surrounding lines untouched. */
  lemma SkippedLine(before: seq<string>, line: string, after: seq<string>)
    requires ParseLine(line).None?
    ensures ParseLines(before + [line] + after) == ParseLines(before + after)
  {
    ParseLinesAppend(before + [line], after);
    ParseLinesAppend(before, [line]);
    ParseLinesAppend(before, after);
    assert [line][..0] == [];
  }

  /** Lines that all yield nothing give an empty list and a zero total. */
  lemma {:induction false} NothingToRecord(lines: seq<string>)
    requires forall i :: 0 <= i < |lines| ==> ParseLine(lines[i]).None?
    ensures ParseLines(lines) == Empty
  {
    if |lines| > 0 {
      var init := lines[..|lines| - 1];
      assert forall i :: 0 <= i < |init| ==> init[i] == lines[i];
      NothingToRecord(init);
    }
  }

  /** A reply in which no line mentions "calories" (the empty reply among
      them) gives an empty list and a zero total. */
  lemma NoCandidateLines(text: string)
    requires forall i :: 0 <= i < |Split(text, Newline)| ==> !IsCandidate(Split(text, Newline)[i])
    ensures Parse(text) == Empty
  {
    NothingToRecord(Split(text, Newline));
  }

  lemma EmptyReply()
    ensures Parse("") == Empty
  {
    assert !Contains(Lower(""), Keyword);
    NoCandidateLines("");
  }

  /** The records of the loop are the defined per-line results, in order. */
  lemma {:induction false} IngredientsAreFilterMap(lines: seq<string>)
    ensures ParseLines(lines).ingredients == FilterMap(ParseLine, lines)
  {
    if |lines| > 0 {
      IngredientsAreFilterMap(lines[..|lines| - 1]);
    }
  }

  /** Where every record comes from.  With `idx` the ascending positions of
      the lines that yield a record: the k-th record is the record of line
      `idx[k]`, and a line is listed exactly when it yields a record.  So
      records follow the order of the reply and no line yields two. */
  lemma Provenance(lines: seq<string>)
    ensures var idx := Defined(ParseLine, lines);
      var recs := ParseLines(lines).ingredients;
      && |idx| == |recs|
      && (forall k :: 0 <= k < |idx| ==> idx[k] < |lines| && ParseLine(lines[idx[k]]) == Some(recs[k]))
      && Ascending(idx)
      && (forall i :: 0 <= i < |lines| ==> (i in idx <==> ParseLine(lines[i]).Some?))
  {
    IngredientsAreFilterMap(lines);
    FilterMapProvenance(ParseLine, lines);
    DefinedAscending(ParseLine, lines);
    forall i | 0 <= i < |lines| ensures i in Defined(ParseLine, lines) <==> ParseLine(lines[i]).Some? {
      DefinedExactly(ParseLine, lines, i);
    }
  }
}
