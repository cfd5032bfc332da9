/**
 * The page streamer: the read/count/filter loop of selpg, the check of the
 * final page counter against the requested range, and the whole run
 * (validation, then streaming) on a given input text.
 */
module Selpg {
  import opened Args
  import opened Reader
  import opened Paging
  import opened Seqs

  /** How a run of the streamer ends. */
  datatype RunOutcome =
    | Completed
    | StartBeyondTotal(startPage: int, totalPages: int)  // "no output written"
    | EndBeyondTotal(endPage: int, totalPages: int)      // "less output than expected"

  /** How the whole program ends: rejected by the validator, or run to the end of the input. */
  datatype RunResult =
    | Rejected(check: CheckOutcome)
    | Ran(outcome: RunOutcome)

  /** The diagnostic chosen from the final page counter once the input is exhausted. */
  function RangeCheck(pageCount: int, pageStart: int, pageEnd: int): (o: RunOutcome)
    ensures o.Completed? ==> pageStart <= pageCount && pageEnd <= pageCount
    ensures o.StartBeyondTotal? ==> o == StartBeyondTotal(pageStart, pageCount) && pageCount < pageStart
    ensures o.EndBeyondTotal? ==> o == EndBeyondTotal(pageEnd, pageCount) && pageStart <= pageCount < pageEnd
  {
    if pageCount < pageStart then StartBeyondTotal(pageStart, pageCount)
    else if pageCount < pageEnd then EndBeyondTotal(pageEnd, pageCount)
    else Completed
  }

  /**
   * The streaming loop: read one unit at a time, update the counters, and append the unit
   * to the output when the page counter lies in [pageStart, pageEnd]. The read that reports
   * end-of-file still updates the counters and then ends the loop without writing.
   */
  method Output2Des(input: string, pageStart: int, pageEnd: int, pageLength: int, pageType: bool)
    returns (output: string, pageCount: int, outcome: RunOutcome)
    // exactly the delimiter-terminated units whose page is in range, in input order
    ensures output == Selection(input, pageStart, pageEnd, pageLength, pageType)
    ensures pageCount == TotalPages(input, pageLength, pageType)
    ensures outcome == RangeCheck(pageCount, pageStart, pageEnd)
    // the start-page error is only reported when nothing was written
    ensures outcome.StartBeyondTotal? ==> output == []
  {
    var lineCount := 0;
    pageCount := 1;
    output := [];
    var rest := input;  // what the buffered reader has not yet returned
    ghost var done: seq<string> := [];
    ghost var units := Units(input, Delimiter(pageType));
    while true
      invariant units == done + Units(rest, Delimiter(pageType))
      invariant Counters(lineCount, pageCount) == CountersAfter(|done|, pageLength, pageType)
      invariant output == SelectUnits(done, 0, pageStart, pageEnd, pageLength, pageType)
      decreases |rest|
    {
      var read: Read;
      CountersStep(|done|, pageLength, pageType);
      if pageType {
        read := ReadString(rest, FormFeed);
        pageCount := pageCount + 1;
      } else {
        read := ReadString(rest, Newline);
        lineCount := lineCount + 1;
        if lineCount > pageLength {
          pageCount := pageCount + 1;
          lineCount := 1;
        }
      }
      assert Counters(lineCount, pageCount) == CountersAfter(|done| + 1, pageLength, pageType);
      if read.eof {
        break;
      }
      var line := read.data;
      UnitsUnfold(rest, Delimiter(pageType));
      rest := rest[|line|..];
      if pageStart <= pageCount && pageCount <= pageEnd {
        output := output + line;
      }
      SelectSnoc(done, line, pageStart, pageEnd, pageLength, pageType);
      AppendAssoc(done, [line], Units(rest, Delimiter(pageType)));
      assert |done + [line]| == |done| + 1;
      done := done + [line];
    }
    AppendEmpty(done);
    if pageCount < pageStart {
      outcome := StartBeyondTotal(pageStart, pageCount);
      NoOutputBeforeStart(input, pageStart, pageEnd, pageLength, pageType);
    } else if pageCount < pageEnd {
      outcome := EndBeyondTotal(pageEnd, pageCount);
    } else {
      outcome := Completed;
    }
  }

  /**
   * A whole run on `input`: the validator decides first; only an accepted configuration
   * reaches the streamer. The input file and the destination name are not consulted
   * here: the text is given directly and the output always goes to standard output.
   */
  method Selpg(args: SelpgArgs, input: string) returns (output: string, result: RunResult)
    // a rejected configuration writes no page (the usage text is not part of `output`)
    ensures CheckArgs(args) != Accept ==> output == [] && result == Rejected(CheckArgs(args))
    ensures CheckArgs(args) == Accept ==>
              && output == Selection(input, args.startPage, args.endPage, args.pageLength, args.pageType)
              && result == Ran(RangeCheck(TotalPages(input, args.pageLength, args.pageType), args.startPage, args.endPage))
  {
    var check := CheckArgs(args);
    if check != Accept {
      return [], Rejected(check);
    }
    var pageCount, outcome;
    output, pageCount, outcome := Output2Des(input, args.startPage, args.endPage, args.pageLength, args.pageType);
    result := Ran(outcome);
  }

  /** 25 complete lines at 10 lines a page end with the page counter at 3. */
  lemma ShortInputTotal(input: string)
    requires multiset(input)[Newline] == 25
    ensures TotalPages(input, 10, false) == 3
  {
    UnitCount(input, Newline);
    CountersClosedForm(26, 10, false);
  }

  /** Asking for pages 1..5 of that input writes every line, then reports the end page as past the total. */
  lemma ShortInputEndBeyond(input: string)
    requires multiset(input)[Newline] == 25
    ensures Selection(input, 1, 5, 10, false) == Concat(Units(input, Newline))
    ensures RangeCheck(TotalPages(input, 10, false), 1, 5) == EndBeyondTotal(5, 3)
  {
    var us := Units(input, Newline);
    ShortInputTotal(input);
    UnitCount(input, Newline);
    LineModeWindow(input, 1, 5, 10);
    assert UnitRange(us, 0, 50) == us;
  }

  /** Asking for pages 5..6 of that input writes nothing and reports the start page as past the total. */
  lemma ShortInputStartBeyond(input: string)
    requires multiset(input)[Newline] == 25
    ensures Selection(input, 5, 6, 10, false) == []
    ensures RangeCheck(TotalPages(input, 10, false), 5, 6) == StartBeyondTotal(5, 3)
  {
    ShortInputTotal(input);
    NoOutputBeforeStart(input, 5, 6, 10, false);
  }
}
