/**
 A parser for one HTML-style ruby (furigana) span,
   `<ruby><rt>READING</ruby>TRAILING`,
 built from `Tag` and `TakeWhile1`. Every rule is a pure function from the
 input to `Ok(rest, value)` or `Fail`; a failing step fails the whole rule.
 */
module Furigana {
  import opened Combinators

  /**
   A parsed value: `Ruby` maps the trailing text of a span to the `RubyText`
   holding its reading; `RubyText` is the reading itself.
   */
  datatype Element = Ruby(entries: map<string, Element>) | RubyText(text: string)

  /** The shape every `Ruby` the parser builds has: exactly one entry, whose value is a `RubyText`. */
  ghost predicate WellFormed(e: Element) {
    e.Ruby? ==> |e.entries| == 1 && forall t :: t in e.entries ==> e.entries[t].RubyText?
  }

  /**
   The seven inclusive code-point blocks counted as Japanese script: CJK
   symbols and punctuation, CJK unified ideographs, compatibility ideographs,
   extension A, radicals, hiragana and katakana, in the order of the match
   arms, as a table of inclusive ends.
   */
  const JapaneseBlocks: seq<(char, char)> := [
    ('\U{3000}', '\U{303F}'),
    ('\U{4E00}', '\U{9FCB}'),
    ('\U{F900}', '\U{FAFA}'),
    ('\U{3400}', '\U{4DB5}'),
    ('\U{2E80}', '\U{2FD5}'),
    ('\U{3041}', '\U{3096}'),
    ('\U{30A0}', '\U{30FF}')
  ]

  ghost predicate InJapaneseBlock(c: char) {
    exists k :: 0 <= k < |JapaneseBlocks| && JapaneseBlocks[k].0 <= c <= JapaneseBlocks[k].1
  }

  /**
   `is_japanese`: one test per match arm, in the order the source lists them.
   Each accepting arm names the table entry it corresponds to.
   */
  function IsJapanese(c: char): (b: bool)
    ensures b <==> InJapaneseBlock(c)
  {
    if '\U{3000}' <= c <= '\U{303F}' then assert JapaneseBlocks[0].0 <= c <= JapaneseBlocks[0].1; true
    else if '\U{4E00}' <= c <= '\U{9FCB}' then assert JapaneseBlocks[1].0 <= c <= JapaneseBlocks[1].1; true
    else if '\U{F900}' <= c <= '\U{FAFA}' then assert JapaneseBlocks[2].0 <= c <= JapaneseBlocks[2].1; true
    else if '\U{3400}' <= c <= '\U{4DB5}' then assert JapaneseBlocks[3].0 <= c <= JapaneseBlocks[3].1; true
    else if '\U{2E80}' <= c <= '\U{2FD5}' then assert JapaneseBlocks[4].0 <= c <= JapaneseBlocks[4].1; true
    else if '\U{3041}' <= c <= '\U{3096}' then assert JapaneseBlocks[5].0 <= c <= JapaneseBlocks[5].1; true
    else if '\U{30A0}' <= c <= '\U{30FF}' then assert JapaneseBlocks[6].0 <= c <= JapaneseBlocks[6].1; true
    else false
  }

  /** A non-empty run of Japanese characters: what every text slot of the grammar holds. */
  ghost predicate IsRun(s: string) {
    |s| > 0 && All(IsJapanese, s)
  }

  /** The input left after a maximal run: empty, or starting with a non-Japanese character. */
  ghost predicate AfterRun(rest: string) {
    StopsScan(IsJapanese, rest)
  }

  /** `alphanumeric`: the longest non-empty prefix of Japanese characters. */
  function Alphanumeric(i: string): (r: IResult<string>)
    ensures r.Ok? <==> |i| > 0 && IsJapanese(i[0])
    ensures r.Ok? ==> IsRun(r.value) && r.value + r.rest == i && AfterRun(r.rest)
    ensures r.Ok? ==> |r.rest| < |i|
  {
    TakeWhile1(IsJapanese, i)
  }

  /** `rt`: the literal `<rt>` followed by a run, which becomes a `RubyText`. */
  function Rt(i: string): (r: IResult<Element>)
    ensures r.Ok? <==> |i| > 4 && i[..4] == "<rt>" && IsJapanese(i[4])
    ensures r.Ok? ==> r.value.RubyText? && IsRun(r.value.text) && AfterRun(r.rest)
    ensures r.Ok? ==> "<rt>" + r.value.text + r.rest == i
    ensures r.Ok? ==> |r.rest| < |i|
  {
    match Tag("<rt>", i)
    case Fail => Fail
    case Ok(i1, _) =>
      match Alphanumeric(i1)
      case Fail => Fail
      case Ok(i2, text) => Ok(i2, RubyText(text))
  }

  /** The surface form of one span, `<ruby><rt>READING</ruby>TRAILING`. */
  ghost function Markup(reading: string, trailing: string): string {
    "<ruby><rt>" + reading + "</ruby>" + trailing
  }

  /** `i` is one span with runs `reading` and `trailing`, followed by `rest`, where the trailing run ends. */
  ghost predicate IsSpan(i: string, reading: string, trailing: string, rest: string) {
    IsRun(reading) && IsRun(trailing) && AfterRun(rest) && i == Markup(reading, trailing) + rest
  }

  /**
   `ruby`: `<ruby>`, then `rt`, then `</ruby>`, then the trailing run; the
   result maps the trailing text to the reading.
   */
  function Ruby(i: string): (r: IResult<Element>)
    ensures r.Ok? ==> r.value.Ruby? && WellFormed(r.value) && |r.rest| < |i|
  {
    match Tag("<ruby>", i)
    case Fail => Fail
    case Ok(i1, _) =>
      match Rt(i1)
      case Fail => Fail
      case Ok(i2, reading) =>
        match Tag("</ruby>", i2)
        case Fail => Fail
        case Ok(i3, _) =>
          match Alphanumeric(i3)
          case Fail => Fail
          case Ok(i4, trailing) =>
            Ok(i4, Element.Ruby(map[trailing := reading]))
  }

  // Character classification

  /** Both ends of every block are accepted, and the code point just outside each end is not. */
  lemma BlockBoundaries()
    ensures IsJapanese('\U{3000}') && IsJapanese('\U{303F}') && !IsJapanese('\U{2FFF}') && !IsJapanese('\U{3040}')
    ensures IsJapanese('\U{4E00}') && IsJapanese('\U{9FCB}') && !IsJapanese('\U{4DFF}') && !IsJapanese('\U{9FCC}')
    ensures IsJapanese('\U{F900}') && IsJapanese('\U{FAFA}') && !IsJapanese('\U{F8FF}') && !IsJapanese('\U{FAFB}')
    ensures IsJapanese('\U{3400}') && IsJapanese('\U{4DB5}') && !IsJapanese('\U{33FF}') && !IsJapanese('\U{4DB6}')
    ensures IsJapanese('\U{2E80}') && IsJapanese('\U{2FD5}') && !IsJapanese('\U{2E7F}') && !IsJapanese('\U{2FD6}')
    ensures IsJapanese('\U{3041}') && IsJapanese('\U{3096}') && !IsJapanese('\U{3040}') && !IsJapanese('\U{3097}')
    ensures IsJapanese('\U{30A0}') && IsJapanese('\U{30FF}') && !IsJapanese('\U{309F}') && !IsJapanese('\U{3100}')
  {
  }

  /** No ASCII character is Japanese, in particular none of `<`, `/`, `>` and the tag letters. */
  lemma AsciiIsNotJapanese(c: char)
    requires c < '\U{80}'
    ensures !IsJapanese(c)
  {
  }

  /** The source's own check: the kanji 同 is Japanese. */
  lemma DouIsJapanese()
    ensures IsJapanese('同')
  {
  }

  // Runs

  /** A maximal run is parsed back exactly, whatever non-Japanese input follows it. */
  lemma AlphanumericUnique(run: string, rest: string)
    requires IsRun(run) && AfterRun(rest)
    ensures Alphanumeric(run + rest) == Ok(rest, run)
  {
    TakeWhile1Unique(IsJapanese, run, rest);
  }

  /** The input after a run of the grammar starts with a tag, so the run ends there. */
  lemma TagEndsRun(t: string, rest: string)
    requires |t| > 0 && t[0] == '<'
    ensures AfterRun(t + rest)
  {
    AsciiIsNotJapanese((t + rest)[0]);
  }

  // The rt rule

  /** `<rt>` followed by a maximal run parses to that run as a `RubyText`. */
  lemma RtRoundTrip(reading: string, rest: string)
    requires IsRun(reading) && AfterRun(rest)
    ensures Rt("<rt>" + reading + rest) == Ok(rest, RubyText(reading))
  {
    var i := "<rt>" + reading + rest;
    assert i == "<rt>" + (reading + rest);
    assert Tag("<rt>", i) == Ok(reading + rest, "<rt>");
    AlphanumericUnique(reading, rest);
  }

  /** The source's test of `rt`: `<rt>どう` is the reading どう with nothing left over. */
  lemma RtExample()
    ensures Rt("<rt>どう") == Ok("", RubyText("どう"))
  {
    assert "<rt>どう" == "<rt>" + "どう" + "";
    RtRoundTrip("どう", "");
  }

  // The ruby rule

  /** A span followed by more input is read tag by tag, left to right. */
  lemma MarkupNests(reading: string, trailing: string, rest: string)
    ensures Markup(reading, trailing) + rest == "<ruby>" + ("<rt>" + reading + ("</ruby>" + (trailing + rest)))
  {
  }

  /** Every successful parse of `ruby` read exactly one span, and maps its trailing text to its reading. */
  lemma RubySound(i: string)
    requires Ruby(i).Ok?
    ensures exists reading, trailing ::
      (IsSpan(i, reading, trailing, Ruby(i).rest) &&
       Ruby(i).value == Element.Ruby(map[trailing := RubyText(reading)]))
  {
    var i1 := Tag("<ruby>", i).rest;
    var e := Rt(i1);
    var i2 := e.rest;
    var i3 := Tag("</ruby>", i2).rest;
    var a := Alphanumeric(i3);
    var reading, trailing, rest := e.value.text, a.value, a.rest;
    assert i == "<ruby>" + ("<rt>" + reading + ("</ruby>" + (trailing + rest)));
    MarkupNests(reading, trailing, rest);
    assert IsSpan(i, reading, trailing, rest);
  }

  /** Round trip: a span whose trailing run ends parses back to its reading and trailing text. */
  lemma RubyRoundTrip(reading: string, trailing: string, rest: string)
    requires IsRun(reading) && IsRun(trailing) && AfterRun(rest)
    ensures Ruby(Markup(reading, trailing) + rest) == Ok(rest, Element.Ruby(map[trailing := RubyText(reading)]))
  {
    var i := Markup(reading, trailing) + rest;
    var afterReading := "</ruby>" + (trailing + rest);
    assert i == "<ruby>" + ("<rt>" + reading + afterReading);
    assert Tag("<ruby>", i) == Ok("<rt>" + reading + afterReading, "<ruby>");
    TagEndsRun("</ruby>", trailing + rest);
    RtRoundTrip(reading, afterReading);
    assert Tag("</ruby>", afterReading) == Ok(trailing + rest, "</ruby>");
    AlphanumericUnique(trailing, rest);
  }

  /** `ruby` succeeds exactly on the inputs that begin with one span. */
  lemma RubyAcceptsExactlySpans(i: string)
    ensures Ruby(i).Ok? <==> exists reading, trailing, rest :: IsSpan(i, reading, trailing, rest)
  {
    if Ruby(i).Ok? {
      RubySound(i);
    }
    if exists reading, trailing, rest :: IsSpan(i, reading, trailing, rest) {
      var reading, trailing, rest :| IsSpan(i, reading, trailing, rest);
      RubyRoundTrip(reading, trailing, rest);
    }
  }

  /** There is no slot for base text: anything but `<` right after `<ruby>` fails the whole rule. */
  lemma RubyRejectsTextBeforeRt(i: string)
    requires |i| > 6 && i[..6] == "<ruby>" && i[6] != '<'
    ensures Ruby(i).Fail?
  {
    assert Tag("<ruby>", i).rest[0] == i[6];
  }

  /** A reading not followed by `</ruby>` fails the whole rule. */
  lemma RubyRejectsUnclosedReading(reading: string, rest: string)
    requires IsRun(reading) && AfterRun(rest)
    requires !(|rest| >= 7 && rest[..7] == "</ruby>")
    ensures Ruby("<ruby><rt>" + reading + rest).Fail?
  {
    var i := "<ruby><rt>" + reading + rest;
    assert i == "<ruby>" + ("<rt>" + reading + rest);
    assert Tag("<ruby>", i) == Ok("<rt>" + reading + rest, "<ruby>");
    RtRoundTrip(reading, rest);
  }

  /** A closed span with no Japanese text after `</ruby>` fails the whole rule. */
  lemma RubyRejectsMissingTrailing(reading: string, rest: string)
    requires IsRun(reading) && AfterRun(rest)
    ensures Ruby("<ruby><rt>" + reading + "</ruby>" + rest).Fail?
  {
    var i := "<ruby><rt>" + reading + "</ruby>" + rest;
    var afterReading := "</ruby>" + rest;
    assert i == "<ruby>" + ("<rt>" + reading + afterReading);
    assert Tag("<ruby>", i) == Ok("<rt>" + reading + afterReading, "<ruby>");
    TagEndsRun("</ruby>", rest);
    RtRoundTrip(reading, afterReading);
    assert Tag("</ruby>", afterReading) == Ok(rest, "</ruby>");
  }

  /** The markup with base text 同 before `<rt>` is not accepted. */
  lemma RubyRejectsBaseKanjiExample()
    ensures Ruby("<ruby>同<rt>どう</ruby>ぜず。").Fail?
  {
    RubyRejectsTextBeforeRt("<ruby>同<rt>どう</ruby>ぜず。");
  }

  /** The markup without base text parses to {ぜず。 ↦ どう} and consumes everything. */
  lemma RubyExample()
    ensures Ruby("<ruby><rt>どう</ruby>ぜず。") == Ok("", Element.Ruby(map["ぜず。" := RubyText("どう")]))
  {
    assert "<ruby><rt>どう</ruby>ぜず。" == Markup("どう", "ぜず。") + "";
    RubyRoundTrip("どう", "ぜず。", "");
  }
}
