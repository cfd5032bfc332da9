/** The argument record of selpg and the validation ladder that runs before any I/O. */
module Args {

  /** The value the flag parser leaves in startPage and endPage when the flag is absent. */
  const Unset: int := -1

  /** The default page length; also the only length allowed together with -f. */
  const DefaultPageLength: int := 72

  /** The parsed command line: -s, -e, the positional input file, -d, -l and -f. */
  datatype SelpgArgs = SelpgArgs(
    startPage: int,
    endPage: int,
    inputFile: string,
    destFile: string,
    pageLength: int,
    pageType: bool  // true for -f: pages end at form feeds
  )

  /** The distinct ways the validation ladder ends. */
  datatype CheckOutcome =
    | Usage               // a page bound was not given: the usage text is printed
    | NegativePage        // "startPage and endPage can't be negative"
    | StartAfterEnd       // "startPage can't be bigger than the endPage"
    | LengthTypeConflict  // "-l and -f are conflicting"
    | BadPageLength       // "pageLength can't be less than 1"
    | Accept              // the configuration banner is printed and paging starts

  /** What an accepted configuration satisfies, stated independently of the ladder. */
  predicate WellFormed(a: SelpgArgs)
  {
    && 1 <= a.startPage
    && a.startPage <= a.endPage
    && 1 <= a.pageLength
    && (a.pageType ==> a.pageLength == DefaultPageLength)
  }

  /** The ordered checks of the argument validator; the first failing rule decides. */
  function CheckArgs(a: SelpgArgs): (r: CheckOutcome)
    // accepted exactly when the configuration is well formed
    ensures r == Accept <==> WellFormed(a)
    // the unset sentinel is tested first, so a missing bound wins over any other fault
    ensures r == Usage <==> (a.startPage == Unset || a.endPage == Unset)
    // other non-positive bounds (including -2, -3, ...) are the negative-page error
    ensures r == NegativePage <==>
              a.startPage != Unset && a.endPage != Unset && (a.startPage <= 0 || a.endPage <= 0)
    ensures r == StartAfterEnd <==> 1 <= a.endPage < a.startPage
    // with -f any length other than the default is a conflict, even a non-positive one
    ensures r == LengthTypeConflict <==>
              1 <= a.startPage <= a.endPage && a.pageType && a.pageLength != DefaultPageLength
    // so the length error can only be reported in line mode
    ensures r == BadPageLength <==>
              1 <= a.startPage <= a.endPage && !a.pageType && a.pageLength <= 0
  {
    if a.startPage == Unset || a.endPage == Unset then Usage
    else if a.startPage <= 0 || a.endPage <= 0 then NegativePage
    else if a.startPage > a.endPage then StartAfterEnd
    else if a.pageType && a.pageLength != DefaultPageLength then LengthTypeConflict
    else if a.pageLength <= 0 then BadPageLength
    else Accept
  }
}
