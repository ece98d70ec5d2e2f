/**
 * The prompt `main` in chatbot_scrape.ts builds from the scraped fields before handing it to
 * the text-generation service. The instruction block after the four field lines is fixed
 * text and is taken here as a parameter.
 */
module ChatbotPrompt {
  import opened Nullable
  import opened Fetch
  import opened JsString
  import opened Search
  import opened ProductSummary

  const Preamble := "I have a product with the following details:"

  /** `${x}` in a template literal: `null` is written as the text "null". */
  function Interpolate(v: Nullable<string>): string {
    match v
    case Null => "null"
    case Value(t) => t
  }

  /** Lines joined with line breaks, as a multi-line template literal writes them. */
  function JoinLines(lines: seq<string>): string
    requires lines != []
  {
    if |lines| == 1 then lines[0] else lines[0] + "\n" + JoinLines(lines[1..])
  }

  /** Joined lines open with the first line and its break, and close with the last line. */
  lemma {:induction false} JoinLinesEnds(lines: seq<string>)
    requires |lines| >= 2
    ensures var t := JoinLines(lines);
      && |lines[0]| < |t| && t[..|lines[0]| + 1] == lines[0] + "\n"
      && |lines[|lines| - 1]| <= |t| && t[|t| - |lines[|lines| - 1]|..] == lines[|lines| - 1]
    decreases |lines|
  {
    var t := JoinLines(lines);
    var tail := JoinLines(lines[1..]);
    var last := lines[|lines| - 1];
    assert t == lines[0] + "\n" + tail;
    assert t[..|lines[0]| + 1] == lines[0] + "\n";
    if |lines| == 2 {
      assert tail == last;
    } else {
      JoinLinesEnds(lines[1..]);
      assert lines[1..][|lines| - 2] == last;
    }
    assert t[|t| - |last|..] == tail[|tail| - |last|..];
  }

  /**
   * The prompt text: a preamble, one line per field, then the instructions. It opens with
   * the preamble on a line of its own and closes with the instructions exactly as given.
   */
  function Prompt(s: Summary, instructions: string): (p: string)
    ensures Preamble + "\n" <= p
    ensures |instructions| <= |p| && p[|p| - |instructions|..] == instructions
  {
    var lines := [
      Preamble,
      "Brand: " + Interpolate(s.brand),
      "Name: " + Interpolate(s.name),
      "Model Number: " + Interpolate(s.modelNumber),
      "Price: " + Interpolate(s.price),
      instructions];
    JoinLinesEnds(lines);
    JoinLines(lines)
  }

  /** `text.split("\n")`. */
  function Lines(text: string): (lines: seq<string>)
    ensures |lines| >= 1
    decreases |text|
  {
    var i := IndexOf(text, '\n');
    if i == |text| then [text] else [text[..i]] + Lines(text[i + 1..])
  }

  lemma LinesCons(a: string, b: string)
    requires '\n' !in a
    ensures Lines(a + "\n" + b) == [a] + Lines(b)
  {
    var t := a + "\n" + b;
    assert t[|a|] == '\n';
    assert IndexOf(t, '\n') == |a|;
    assert t[..|a|] == a;
    assert t[|a| + 1..] == b;
  }

  lemma LinesOfJoinStep(lines: seq<string>)
    requires |lines| > 1 && '\n' !in lines[0]
    ensures Lines(JoinLines(lines)) == [lines[0]] + Lines(JoinLines(lines[1..]))
  {
    LinesCons(lines[0], JoinLines(lines[1..]));
  }

  lemma Regroup<T>(whole: seq<T>, x: T, tail: seq<T>, front: seq<T>, back: seq<T>, init: seq<T>)
    requires whole == [x] + tail && tail == front + back && init == [x] + front
    ensures whole == init + back
  {
  }

  /**
   * Splitting joined lines gives them back, as long as none but the last holds a break.
   */
  lemma {:induction false} LinesOfJoin(lines: seq<string>)
    requires lines != []
    requires forall k :: 0 <= k < |lines| - 1 ==> '\n' !in lines[k]
    ensures Lines(JoinLines(lines)) == lines[..|lines| - 1] + Lines(lines[|lines| - 1])
    decreases |lines|
  {
    if |lines| > 1 {
      var rest := lines[1..];
      TailHasNoBreak(lines);
      LinesOfJoin(rest);
      LinesOfJoinStep(lines);
      InitOfTail(lines);
      Regroup(Lines(JoinLines(lines)), lines[0], Lines(JoinLines(rest)),
              rest[..|rest| - 1], Lines(rest[|rest| - 1]), lines[..|lines| - 1]);
    }
  }

  lemma TailHasNoBreak(lines: seq<string>)
    requires |lines| > 1
    requires forall k :: 0 <= k < |lines| - 1 ==> '\n' !in lines[k]
    ensures forall k :: 0 <= k < |lines[1..]| - 1 ==> '\n' !in lines[1..][k]
  {
    var rest := lines[1..];
    forall k | 0 <= k < |rest| - 1 ensures '\n' !in rest[k] {
      assert rest[k] == lines[k + 1];
    }
  }

  lemma InitOfTail<T>(lines: seq<T>)
    requires |lines| > 1
    ensures lines[..|lines| - 1] == [lines[0]] + lines[1..][..|lines| - 2]
    ensures lines[1..][|lines| - 2] == lines[|lines| - 1]
  {
  }

  /**
   * When no field value contains a line break, the prompt's first five lines are the
   * preamble and `Brand:`, `Name:`, `Model Number:`, `Price:` in that order, each followed
   * by its value (`null` as the text "null"), and the instructions follow.
   */
  lemma PromptLines(s: Summary, instructions: string)
    requires forall f: Field :: '\n' !in Interpolate(s.Get(f))
    ensures Lines(Prompt(s, instructions)) ==
      [ Preamble,
        "Brand: " + Interpolate(s.brand),
        "Name: " + Interpolate(s.name),
        "Model Number: " + Interpolate(s.modelNumber),
        "Price: " + Interpolate(s.price) ] + Lines(instructions)
  {
    var brand, name := "Brand: " + Interpolate(s.brand), "Name: " + Interpolate(s.name);
    var model, price := "Model Number: " + Interpolate(s.modelNumber), "Price: " + Interpolate(s.price);
    assert Prompt(s, instructions) == JoinLines([Preamble, brand, name, model, price, instructions]);
    FieldLinesHaveNoBreak(s);
    SixLines(Preamble, brand, name, model, price, instructions);
  }

  lemma FieldLinesHaveNoBreak(s: Summary)
    requires forall f: Field :: '\n' !in Interpolate(s.Get(f))
    ensures '\n' !in Preamble
    ensures '\n' !in "Brand: " + Interpolate(s.brand) && '\n' !in "Name: " + Interpolate(s.name)
    ensures '\n' !in "Model Number: " + Interpolate(s.modelNumber)
    ensures '\n' !in "Price: " + Interpolate(s.price)
  {
    assert '\n' !in Interpolate(s.Get(Brand)) && '\n' !in Interpolate(s.Get(Name));
    assert '\n' !in Interpolate(s.Get(ModelNumber)) && '\n' !in Interpolate(s.Get(Price));
  }

  /** Six joined lines split back into the first five and the lines of the sixth. */
  lemma SixLines(a: string, b: string, c: string, d: string, e: string, f: string)
    requires '\n' !in a && '\n' !in b && '\n' !in c && '\n' !in d && '\n' !in e
    ensures Lines(JoinLines([a, b, c, d, e, f])) == [a, b, c, d, e] + Lines(f)
  {
    var lines := [a, b, c, d, e, f];
    LinesOfJoin(lines);
    assert lines[..5] == [a, b, c, d, e];
  }

  /** The prompt `main` sends for a search. */
  function PromptFor(q: SearchQuery, fetch: string -> Response<SummaryPage>, instructions: string)
    : string
  {
    Prompt(ScrapeProductDetails(q, fetch).summary, instructions)
  }

  /** A failed search still sends a prompt; its four field lines all read "null". */
  lemma FailedFetchPromptsNull(
    q: SearchQuery, fetch: string -> Response<SummaryPage>, instructions: string)
    requires !fetch(SearchUrl(q)).IsOk200()
    ensures var lines := Lines(PromptFor(q, fetch, instructions));
      |lines| >= 5 &&
      lines[1..5] == ["Brand: null", "Name: null", "Model Number: null", "Price: null"]
  {
    var p := PromptFor(q, fetch, instructions);
    assert p == Prompt(AllNull, instructions);
    assert Lines(p) ==
      [Preamble, "Brand: null", "Name: null", "Model Number: null", "Price: null"]
      + Lines(instructions) by {
      PromptLines(AllNull, instructions);
      NullLabels();
    }
    SecondToFifth(Preamble, "Brand: null", "Name: null", "Model Number: null", "Price: null",
                  Lines(instructions));
  }

  lemma SecondToFifth<T>(a: T, b: T, c: T, d: T, e: T, rest: seq<T>)
    ensures |[a, b, c, d, e] + rest| >= 5 && ([a, b, c, d, e] + rest)[1..5] == [b, c, d, e]
  {
  }

  lemma NullLabels()
    ensures "Brand: " + "null" == "Brand: null"
    ensures "Name: " + "null" == "Name: null"
    ensures "Model Number: " + "null" == "Model Number: null"
    ensures "Price: " + "null" == "Price: null"
  {
  }
}
