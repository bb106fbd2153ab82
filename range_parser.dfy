/** `validateAndParseRanges` (internal/rest/pdf.go): a comma-separated list of
    page numbers and `start-end` spans becomes the ordered list of pages. */
module RangeParser {
  import opened Common
  import opened Text
  import opened Pages

  /** The five errors the parser can return. */
  datatype ParseError =
    | InvalidRangeFormat(part: string)
    | InvalidRangeStart(text: string)
    | InvalidRangeEnd(text: string)
    | DescendingRange
    | InvalidNumber(part: string)
  {
    /** The error's text, which the handler returns as the message of a 400 response. */
    function Message(): string
    {
      match this
      case InvalidRangeFormat(p) => "invalid range format: " + p
      case InvalidRangeStart(t) => "invalid number in range start: " + t
      case InvalidRangeEnd(t) => "invalid number in range end: " + t
      case DescendingRange => "range start cannot be greater than range end"
      case InvalidNumber(p) => "invalid number: " + p
    }
  }

  /** A side of a span contains no `-`, so the number read from it is not negative. */
  lemma SpanSideNotNegative(side: string)
    requires '-' !in side
    requires Atoi(TrimSpace(side)).Some?
    ensures Atoi(TrimSpace(side)).value >= 0
  {
  }

  /** The pages of a trimmed token that contains a `-`: it must split into
      exactly two sides, each a number once trimmed, with start <= end. */
  function SpanPages(part: string): (r: Result<seq<int>, ParseError>)
    ensures r.Ok? ==> |r.value| >= 1
    ensures r.Ok? ==> forall k :: 0 <= k < |r.value| ==> r.value[k] >= 0
  {
    var sides := SplitOn(part, '-');
    if |sides| != 2 then Err(InvalidRangeFormat(part))
    else
      match Atoi(TrimSpace(sides[0]))
      case None => Err(InvalidRangeStart(sides[0]))
      case Some(start) =>
        match Atoi(TrimSpace(sides[1]))
        case None => Err(InvalidRangeEnd(sides[1]))
        case Some(end) =>
          if start > end then Err(DescendingRange)
          else
            SpanSideNotNegative(sides[0]);
            Ok(Interval(start, end))
  }

  /** The pages one comma-separated token stands for: a span `a-b` gives
      `a, ..., b`, a bare number gives itself. The parser never hands a `-`
      to `Atoi`, so every page it produces is at least 0. */
  function TokenPages(token: string): (r: Result<seq<int>, ParseError>)
    ensures r.Ok? ==> |r.value| >= 1
    ensures r.Ok? ==> forall k :: 0 <= k < |r.value| ==> r.value[k] >= 0
  {
    var part := TrimSpace(token);
    if '-' in part then SpanPages(part)
    else
      match Atoi(part)
      case None => Err(InvalidNumber(part))
      case Some(n) => Ok([n])
  }

  /** The tokens handed one by one, left to right, to `parse`: the pages of
      each token in the order written, or the error of the first token that
      fails (and no pages at all). */
  function ParseEach(parse: string -> Result<seq<int>, ParseError>, tokens: seq<string>): Result<seq<int>, ParseError>
    decreases |tokens|
  {
    if |tokens| == 0 then Ok([])
    else
      match ParseEach(parse, tokens[..|tokens| - 1])
      case Err(e) => Err(e)
      case Ok(init) =>
        match parse(tokens[|tokens| - 1])
        case Err(e) => Err(e)
        case Ok(pages) => Ok(init + pages)
  }

  /** The specification of `validateAndParseRanges`. A successful parse is never
      empty (so the handler may read its last element) and holds no negative page. */
  function ParseRanges(input: string): (r: Result<seq<int>, ParseError>)
    ensures r.Ok? ==> |r.value| >= 1
    ensures r.Ok? ==> forall k :: 0 <= k < |r.value| ==> r.value[k] >= 0
  {
    var tokens := SplitOn(input, ',');
    TokenPagesTogether(tokens);
    ParseEach(TokenPages, tokens)
  }

  /** Every token contributes at least one page, and none is negative. */
  lemma {:induction false} TokenPagesTogether(tokens: seq<string>)
    ensures var r := ParseEach(TokenPages, tokens);
            r.Ok? ==> |r.value| >= |tokens| && forall k :: 0 <= k < |r.value| ==> r.value[k] >= 0
    decreases |tokens|
  {
    if |tokens| > 0 {
      var init := tokens[..|tokens| - 1];
      TokenPagesTogether(init);
      var r := ParseEach(TokenPages, tokens);
      if r.Ok? {
        var a, b := ParseEach(TokenPages, init).value, TokenPages(tokens[|tokens| - 1]).value;
        assert r.value == a + b;
        forall k | 0 <= k < |r.value| ensures r.value[k] >= 0 {
          if k < |a| {
            assert r.value[k] == a[k];
          } else {
            assert r.value[k] == b[k - |a|];
          }
        }
      }
    }
  }

  /** Parsing a list of tokens in two halves: the pages of the first half come
      first, and an error in the first half wins over one in the second. */
  lemma {:induction false} ParseEachAppend(parse: string -> Result<seq<int>, ParseError>, p: seq<string>, q: seq<string>)
    ensures ParseEach(parse, p + q) ==
      if ParseEach(parse, p).Err? then ParseEach(parse, p)
      else if ParseEach(parse, q).Err? then ParseEach(parse, q)
      else Ok(ParseEach(parse, p).value + ParseEach(parse, q).value)
    decreases |q|
  {
    if |q| == 0 {
      assert p + q == p;
      assert ParseEach(parse, p).Ok? ==> ParseEach(parse, p).value + [] == ParseEach(parse, p).value;
    } else {
      var q' := q[..|q| - 1];
      ParseEachAppend(parse, p, q');
      assert (p + q)[..|p + q| - 1] == p + q';
      assert (p + q)[|p + q| - 1] == q[|q| - 1];
      if ParseEach(parse, p).Ok? && ParseEach(parse, q').Ok? && parse(q[|q| - 1]).Ok? {
        assert ParseEach(parse, p).value + ParseEach(parse, q').value + parse(q[|q| - 1]).value
            == ParseEach(parse, p).value + (ParseEach(parse, q').value + parse(q[|q| - 1]).value);
      }
    }
  }

  /** A parse succeeds exactly when every token parses. */
  lemma {:induction false} ParseEachOk(parse: string -> Result<seq<int>, ParseError>, tokens: seq<string>)
    ensures ParseEach(parse, tokens).Ok? <==> forall j :: 0 <= j < |tokens| ==> parse(tokens[j]).Ok?
    decreases |tokens|
  {
    if |tokens| > 0 {
      var init := tokens[..|tokens| - 1];
      ParseEachOk(parse, init);
      assert forall j :: 0 <= j < |init| ==> init[j] == tokens[j];
    }
  }

  /** Any error discards the pages gathered so far, and the error reported is
      that of the first token that fails. */
  lemma FirstBadTokenDecides(parse: string -> Result<seq<int>, ParseError>, tokens: seq<string>, i: nat)
    requires i < |tokens|
    requires forall j :: 0 <= j < i ==> parse(tokens[j]).Ok?
    requires parse(tokens[i]).Err?
    ensures ParseEach(parse, tokens) == Err(parse(tokens[i]).error)
  {
    var before := tokens[..i];
    assert forall j :: 0 <= j < |before| ==> before[j] == tokens[j];
    ParseEachOk(parse, before);
    assert tokens[..i + 1][..i] == before;
    assert ParseEach(parse, tokens[..i + 1]) == Err(parse(tokens[i]).error);
    ErrorPersists(parse, tokens, i + 1);
  }

  /** A token with two or more `-` is not a span. */
  lemma TokenWithSeveralDashes(token: string)
    requires Count(TrimSpace(token), '-') >= 2
    ensures TokenPages(token) == Err(InvalidRangeFormat(TrimSpace(token)))
  {
    var part := TrimSpace(token);
    if '-' !in part {
      SplitWithoutSeparator(part, '-');
    }
  }

  /** A token of the form `a-b` (after trimming) where neither side has a `-`:
      a side that is not a number is reported (start before end), a descending
      span is refused, and an ascending one contributes exactly its pages. */
  lemma SpanToken(token: string, a: string, b: string)
    requires TrimSpace(token) == a + "-" + b
    requires '-' !in a && '-' !in b
    ensures Atoi(TrimSpace(a)).None? ==> TokenPages(token) == Err(InvalidRangeStart(a))
    ensures Atoi(TrimSpace(a)).Some? && Atoi(TrimSpace(b)).None? ==>
              TokenPages(token) == Err(InvalidRangeEnd(b))
    ensures Atoi(TrimSpace(a)).Some? && Atoi(TrimSpace(b)).Some? ==>
              var start, end := Atoi(TrimSpace(a)).value, Atoi(TrimSpace(b)).value;
              TokenPages(token) == if start > end then Err(DescendingRange) else Ok(Interval(start, end))
  {
    var part := TrimSpace(token);
    assert part[|a|] == '-';
    JoinThenSplit([a, b], '-');
    assert Join([a, b], '-') == a + "-" + b;
  }

  /** One token on its own parses as that token. */
  lemma ParseEachSingle(parse: string -> Result<seq<int>, ParseError>, token: string)
    ensures ParseEach(parse, [token]) == parse(token)
  {
    assert [token][..0] == [];
    match parse(token)
    case Ok(pages) => assert [] + pages == pages;
    case Err(_) =>
  }

  /** An input without a comma is a single token. */
  lemma SingleToken(input: string)
    requires ',' !in input
    ensures ParseRanges(input) == TokenPages(input)
  {
    SplitWithoutSeparator(input, ',');
    ParseEachSingle(TokenPages, input);
  }

  /** An empty input is one empty token, which is not a number. */
  lemma EmptyInput()
    ensures ParseRanges("") == Err(InvalidNumber(""))
  {
  }

  /** A span with nothing before its `-` (such as `-3`, or `-` alone) is
      reported by its empty start: negative numbers are not pages. */
  lemma SpanWithEmptyStart(b: string)
    requires '-' !in b && (b == [] || !IsSpace(b[|b| - 1]))
    ensures TokenPages("-" + b) == Err(InvalidRangeStart(""))
  {
    var token := "-" + b;
    assert token == "" + "-" + b;
    TrimSpaceOfTrimmed(token);
    TrimSpaceOfTrimmed("");
    SpanToken(token, "", b);
  }

  /** A span with a valid start and nothing after its `-` (such as `3-`) is
      reported by its empty end. */
  lemma SpanWithEmptyEnd(a: string)
    requires '-' !in a && a != [] && !IsSpace(a[0])
    requires Atoi(TrimSpace(a)).Some?
    ensures TokenPages(a + "-") == Err(InvalidRangeEnd(""))
  {
    var token := a + "-";
    assert token == a + "-" + "";
    assert token[0] == a[0];
    TrimSpaceOfTrimmed(token);
    TrimSpaceOfTrimmed("");
    SpanToken(token, a, "");
  }

  /** A number printed with %d has no sign, no white space and no separator. */
  lemma DecimalStringPlain(n: nat)
    ensures var s := DecimalString(n);
            '-' !in s && ',' !in s && TrimSpace(s) == s && Atoi(s) == Some(n)
  {
    var s := DecimalString(n);
    AtoiOfDecimalString(n);
    TrimSpaceOfTrimmed(s);
    assert forall c :: c in s ==> IsDigit(c);
  }

  /** A printed number is a token that stands for that single page. */
  lemma NumberToken(n: nat)
    ensures TokenPages(DecimalString(n)) == Ok([n])
  {
    DecimalStringPlain(n);
  }

  /** A printed span `m-n` stands for the pages `m..n`, and is refused when it
      descends (the documented example `5-2`). */
  lemma SpanOfNumbers(m: nat, n: nat)
    ensures var token := DecimalString(m) + "-" + DecimalString(n);
            TokenPages(token) == if m > n then Err(DescendingRange) else Ok(Interval(m, n))
  {
    var a, b := DecimalString(m), DecimalString(n);
    var token := a + "-" + b;
    DecimalStringPlain(m);
    DecimalStringPlain(n);
    assert token[0] == a[0] && token[|token| - 1] == b[|b| - 1];
    TrimSpaceOfTrimmed(token);
    SpanToken(token, a, b);
  }

  /** A span whose start is not a number is reported by its start (the
      documented example `a-3`), whatever the end. */
  lemma SpanWithBadStart(a: string, n: nat)
    requires a != [] && !IsSpace(a[0]) && !IsSpace(a[|a| - 1])
    requires '-' !in a && Atoi(a).None?
    ensures TokenPages(a + "-" + DecimalString(n)) == Err(InvalidRangeStart(a))
  {
    var b := DecimalString(n);
    var token := a + "-" + b;
    DecimalStringPlain(n);
    assert token[0] == a[0] && token[|token| - 1] == b[|b| - 1];
    TrimSpaceOfTrimmed(token);
    TrimSpaceOfTrimmed(a);
    SpanToken(token, a, b);
  }

  /** The printed forms of some pages, one token each. */
  function PrintedPages(pages: seq<nat>): (tokens: seq<string>)
    ensures |tokens| == |pages|
    ensures forall k :: 0 <= k < |pages| ==> tokens[k] == DecimalString(pages[k])
  {
    seq(|pages|, k requires 0 <= k < |pages| => DecimalString(pages[k]))
  }

  /** Round trip: pages printed with %d and joined with commas parse back to
      the same pages, in the same order. */
  lemma {:induction false} ParsePrintedPages(pages: seq<nat>)
    requires |pages| >= 1
    ensures ParseRanges(Join(PrintedPages(pages), ',')) == Ok(pages)
  {
    var tokens := PrintedPages(pages);
    forall k | 0 <= k < |tokens| ensures ',' !in tokens[k] {
      DecimalStringPlain(pages[k]);
    }
    JoinThenSplit(tokens, ',');
    ParseEachPrinted(pages);
  }

  lemma ParseEachPrinted(pages: seq<nat>)
    ensures ParseEach(TokenPages, PrintedPages(pages)) == Ok(pages)
  {
    var tokens := PrintedPages(pages);
    forall k | 0 <= k < |tokens| ensures TokenPages(tokens[k]) == Ok([pages[k]]) {
      NumberToken(pages[k]);
    }
    ParseEachSingles(TokenPages, tokens, pages);
  }

  /** Tokens that each stand for one page parse to those pages, in order. */
  lemma {:induction false} ParseEachSingles(parse: string -> Result<seq<int>, ParseError>, tokens: seq<string>, pages: seq<int>)
    requires |tokens| == |pages|
    requires forall k :: 0 <= k < |tokens| ==> parse(tokens[k]) == Ok([pages[k]])
    ensures ParseEach(parse, tokens) == Ok(pages)
    decreases |tokens|
  {
    if |tokens| > 0 {
      var n := |tokens| - 1;
      ParseEachSingles(parse, tokens[..n], pages[..n]);
      assert pages[..n] + [pages[n]] == pages;
    }
  }

  /** Implementation: the loop of `validateAndParseRanges`, appending each
      token's pages to `result` and returning at the first error. */
  method ValidateAndParseRanges(inputRange: string) returns (r: Result<seq<int>, ParseError>)
    ensures r == ParseRanges(inputRange)
  {
    var result: seq<int> := [];
    var parts := SplitOn(inputRange, ',');
    var i := 0;
    while i < |parts|
      invariant 0 <= i <= |parts|
      invariant ParseEach(TokenPages, parts[..i]) == Ok(result)
    {
      var extended := AppendToken(result, parts[i]);
      if extended.Err? {
        StopAtBadToken(TokenPages, parts, i, result);
        return Err(extended.error);
      }
      NextToken(TokenPages, parts, i, result);
      result := extended.value;
      i := i + 1;
    }
    assert parts[..i] == parts;
    r := Ok(result);
  }

  /** The body of the loop over the tokens: trim the token, then either parse
      a span and append its pages one by one, or parse a single number and
      append it. */
  method AppendToken(result: seq<int>, token: string) returns (r: Result<seq<int>, ParseError>)
    ensures TokenPages(token).Err? ==> r == Err(TokenPages(token).error)
    ensures TokenPages(token).Ok? ==> r == Ok(result + TokenPages(token).value)
  {
    var part := TrimSpace(token);
    if '-' in part {
      var rangeParts := SplitOn(part, '-');
      if |rangeParts| != 2 {
        return Err(InvalidRangeFormat(part));
      }
      var start := Atoi(TrimSpace(rangeParts[0]));
      if start.None? {
        return Err(InvalidRangeStart(rangeParts[0]));
      }
      var end := Atoi(TrimSpace(rangeParts[1]));
      if end.None? {
        return Err(InvalidRangeEnd(rangeParts[1]));
      }
      if start.value > end.value {
        return Err(DescendingRange);
      }
      var pages := AppendRun(result, start.value, end.value);
      r := Ok(pages);
    } else {
      var num := Atoi(part);
      if num.None? {
        return Err(InvalidNumber(part));
      }
      r := Ok(result + [num.value]);
    }
  }

  /** One more token that parses extends the pages gathered so far. */
  lemma NextToken(parse: string -> Result<seq<int>, ParseError>, tokens: seq<string>, i: nat, pages: seq<int>)
    requires i < |tokens|
    requires ParseEach(parse, tokens[..i]) == Ok(pages)
    requires parse(tokens[i]).Ok?
    ensures ParseEach(parse, tokens[..i + 1]) == Ok(pages + parse(tokens[i]).value)
  {
    assert tokens[..i + 1][..i] == tokens[..i];
  }

  /** A token that fails ends the parse with its error. */
  lemma StopAtBadToken(parse: string -> Result<seq<int>, ParseError>, tokens: seq<string>, i: nat, pages: seq<int>)
    requires i < |tokens|
    requires ParseEach(parse, tokens[..i]) == Ok(pages)
    requires parse(tokens[i]).Err?
    ensures ParseEach(parse, tokens) == Err(parse(tokens[i]).error)
  {
    assert tokens[..i + 1][..i] == tokens[..i];
    ErrorPersists(parse, tokens, i + 1);
  }

  /** Once a prefix of the tokens fails, so does the whole list, with the same error. */
  lemma ErrorPersists(parse: string -> Result<seq<int>, ParseError>, tokens: seq<string>, n: nat)
    requires n <= |tokens|
    requires ParseEach(parse, tokens[..n]).Err?
    ensures ParseEach(parse, tokens) == ParseEach(parse, tokens[..n])
  {
    ParseEachAppend(parse, tokens[..n], tokens[n..]);
    assert tokens[..n] + tokens[n..] == tokens;
  }
}
