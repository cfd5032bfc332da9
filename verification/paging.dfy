/**
 * Page numbering and page selection as selpg performs them, stated as
 * functions of the number of reads made so far.
 *
 * Read r (counting from 1) is filtered against the page counter as it stands
 * right after that read has updated it, so PageAfter(r) is both "the counter
 * after r reads" and "the page read r belongs to".
 */
module Paging {
  import opened Reader

  const FormFeed: char := '\U{000C}'
  const Newline: char := '\n'

  /** The delimiter handed to ReadString: form feed under -f, newline otherwise. */
  function Delimiter(pageType: bool): char
  {
    if pageType then FormFeed else Newline
  }

  /** The two counters of the streaming loop. */
  datatype Counters = Counters(lineCount: int, pageCount: int)

  /**
   * What one read does to the counters: under -f the page counter goes up; in line mode
   * the line counter goes up and, once it passes the page length, the page counter goes
   * up and the line counter restarts at 1 (the line just read is the first of the new page).
   */
  function Advance(c: Counters, pageLength: int, pageType: bool): (c': Counters)
    // the page counter never goes down and grows by at most one per read
    ensures c.pageCount <= c'.pageCount <= c.pageCount + 1
    // under -f every read starts a new page
    ensures pageType ==> c'.pageCount == c.pageCount + 1
  {
    if pageType then Counters(c.lineCount, c.pageCount + 1)
    else if c.lineCount + 1 > pageLength then Counters(1, c.pageCount + 1)
    else Counters(c.lineCount + 1, c.pageCount)
  }

  /** The counters after `r` reads, starting from lineCount = 0 and pageCount = 1. */
  function CountersAfter(r: nat, pageLength: int, pageType: bool): Counters
  {
    if r == 0 then Counters(0, 1)
    else Advance(CountersAfter(r - 1, pageLength, pageType), pageLength, pageType)
  }

  /** One more read applies one more counter update. */
  lemma CountersStep(r: nat, pageLength: int, pageType: bool)
    ensures CountersAfter(r + 1, pageLength, pageType) == Advance(CountersAfter(r, pageLength, pageType), pageLength, pageType)
  {
  }

  /** The page counter after `r` reads: the page that read `r` (counting from 1) is filtered against. */
  function PageAfter(r: nat, pageLength: int, pageType: bool): int
  {
    CountersAfter(r, pageLength, pageType).pageCount
  }

  /** Quotient and remainder by a positive divisor are fixed by n == q * d + m with 0 <= m < d. */
  lemma DivModUnique(n: int, d: int, q: int, m: int)
    requires d >= 1 && 0 <= m < d && n == q * d + m
    ensures n / d == q && n % d == m
  {
    var q', m' := n / d, n % d;
    assert n == q' * d + m';
    if q' < q {
      assert q * d - q' * d == (q - q') * d;
      MulAtLeast(q - q', d);
    } else if q' > q {
      assert q' * d - q * d == (q' - q) * d;
      MulAtLeast(q' - q, d);
    }
  }

  lemma MulAtLeast(k: int, d: int)
    requires k >= 1 && d >= 1
    ensures k * d >= d
  {
    assert k * d == (k - 1) * d + d;
    assert (k - 1) * d >= 0;
  }

  /** A quotient is at least c exactly when the dividend is at least c times the divisor. */
  lemma DivAtLeast(j: int, d: int, c: int)
    requires d >= 1
    ensures j / d >= c <==> j >= c * d
  {
    var q, m := j / d, j % d;
    assert j == q * d + m;
    if q >= c {
      assert (q - c) * d >= 0;
      assert q * d - c * d == (q - c) * d;
    } else {
      assert (c - q) * d >= d by { MulAtLeast(c - q, d); }
      assert c * d - q * d == (c - q) * d;
    }
  }

  /**
   * The counters in closed form. Under -f read r is compared against page r + 1, so the
   * first chunk counts as page 2. In line mode read r is compared against page
   * (r - 1) / pageLength + 1 and the line counter is (r - 1) % pageLength + 1. A page
   * length of zero or less makes every read overflow the line counter, which then
   * bumps the page on every read as -f does.
   */
  function ClosedForm(r: nat, pageLength: int, pageType: bool): Counters
  {
    if pageType then Counters(0, r + 1)
    else if r == 0 then Counters(0, 1)
    else if pageLength <= 0 then Counters(1, r + 1)
    else Counters((r - 1) % pageLength + 1, (r - 1) / pageLength + 1)
  }

  /** In line mode, one more line moves the closed form on exactly as one read moves the counters. */
  lemma LineModeStep(k: nat, pageLength: int)
    requires pageLength >= 1
    ensures Advance(Counters(k % pageLength + 1, k / pageLength + 1), pageLength, false)
         == Counters((k + 1) % pageLength + 1, (k + 1) / pageLength + 1)
  {
    var q, m := k / pageLength, k % pageLength;
    assert k == q * pageLength + m;
    if m + 1 == pageLength {
      DivModUnique(k + 1, pageLength, q + 1, 0);
    } else {
      DivModUnique(k + 1, pageLength, q, m + 1);
    }
  }

  /** The loop's counters after r reads are given by the closed form. */
  lemma {:induction false} CountersClosedForm(r: nat, pageLength: int, pageType: bool)
    ensures CountersAfter(r, pageLength, pageType) == ClosedForm(r, pageLength, pageType)
  {
    if r > 0 {
      CountersClosedForm(r - 1, pageLength, pageType);
      if !pageType && pageLength >= 1 {
        if r == 1 {
          DivModUnique(0, pageLength, 0, 0);
        } else {
          LineModeStep(r - 2, pageLength);
        }
      }
    }
  }

  /** After every read in line mode the line counter lies in 1..pageLength. */
  lemma LineCountInPage(r: nat, pageLength: int)
    requires r >= 1 && pageLength >= 1
    ensures 1 <= CountersAfter(r, pageLength, false).lineCount <= pageLength
  {
    CountersClosedForm(r, pageLength, false);
  }

  /** The page counter never goes down. */
  lemma {:induction false} PageMonotone(a: nat, b: nat, pageLength: int, pageType: bool)
    requires a <= b
    ensures PageAfter(a, pageLength, pageType) <= PageAfter(b, pageLength, pageType)
    decreases b - a
  {
    if a < b {
      PageMonotone(a, b - 1, pageLength, pageType);
    }
  }

  /** In line mode, read i lies at or after page s exactly when more than (s - 1) * pageLength reads precede or include it. */
  lemma LinePageBounds(i: nat, pageLength: int, s: int, e: int)
    requires i >= 1 && pageLength >= 1
    ensures s <= PageAfter(i, pageLength, false) <==> (s - 1) * pageLength < i
    ensures PageAfter(i, pageLength, false) <= e <==> i <= e * pageLength
  {
    CountersClosedForm(i, pageLength, false);
    DivAtLeast(i - 1, pageLength, s - 1);
    DivAtLeast(i - 1, pageLength, e);
  }

  /** Lines 1..L are page 1, lines L+1..2L page 2, and so on. */
  lemma LinePage(i: nat, pageLength: int, p: int)
    requires i >= 1 && pageLength >= 1
    ensures PageAfter(i, pageLength, false) == p <==> (p - 1) * pageLength < i <= p * pageLength
  {
    LinePageBounds(i, pageLength, p, p);
  }

  predicate InRange(p: int, pageStart: int, pageEnd: int)
  {
    pageStart <= p <= pageEnd
  }

  /** What the loop writes for the units `us` when `r0` reads came before them. */
  function SelectUnits(us: seq<string>, r0: nat, pageStart: int, pageEnd: int, pageLength: int, pageType: bool): string
    decreases |us|
  {
    if us == [] then []
    else
      (if InRange(PageAfter(r0 + 1, pageLength, pageType), pageStart, pageEnd) then us[0] else [])
      + SelectUnits(us[1..], r0 + 1, pageStart, pageEnd, pageLength, pageType)
  }

  /** The text selpg writes for `input`: the delimiter-terminated units whose page lies in range, in order. */
  function Selection(input: string, pageStart: int, pageEnd: int, pageLength: int, pageType: bool): string
  {
    SelectUnits(Units(input, Delimiter(pageType)), 0, pageStart, pageEnd, pageLength, pageType)
  }

  /**
   * The page counter when the loop ends: the final read, which reports end-of-file,
   * still advances the counters, so there is one read more than there are units.
   */
  function TotalPages(input: string, pageLength: int, pageType: bool): int
  {
    PageAfter(|Units(input, Delimiter(pageType))| + 1, pageLength, pageType)
  }

  lemma {:induction false} SelectAppend(a: seq<string>, b: seq<string>, r0: nat,
                                        s: int, e: int, pageLength: int, pageType: bool)
    ensures SelectUnits(a + b, r0, s, e, pageLength, pageType)
         == SelectUnits(a, r0, s, e, pageLength, pageType) + SelectUnits(b, r0 + |a|, s, e, pageLength, pageType)
    decreases |a|
  {
    if a == [] {
      assert a + b == b;
    } else {
      assert (a + b)[1..] == a[1..] + b;
      SelectAppend(a[1..], b, r0 + 1, s, e, pageLength, pageType);
    }
  }

  /** Writing one more unit appends it exactly when its read falls in the page range. */
  lemma SelectSnoc(done: seq<string>, u: string, s: int, e: int, pageLength: int, pageType: bool)
    ensures SelectUnits(done + [u], 0, s, e, pageLength, pageType)
         == SelectUnits(done, 0, s, e, pageLength, pageType)
            + (if InRange(PageAfter(|done| + 1, pageLength, pageType), s, e) then u else [])
  {
    SelectAppend(done, [u], 0, s, e, pageLength, pageType);
    assert [u][1..] == [];
  }

  /** Units none of whose pages is in range contribute nothing. */
  lemma {:induction false} SelectNone(us: seq<string>, r0: nat, s: int, e: int, pageLength: int, pageType: bool)
    requires forall i :: r0 < i <= r0 + |us| ==> !InRange(PageAfter(i, pageLength, pageType), s, e)
    ensures SelectUnits(us, r0, s, e, pageLength, pageType) == []
    decreases |us|
  {
    if us != [] {
      SelectNone(us[1..], r0 + 1, s, e, pageLength, pageType);
    }
  }

  /** Units all of whose pages are in range are written whole. */
  lemma {:induction false} SelectAll(us: seq<string>, r0: nat, s: int, e: int, pageLength: int, pageType: bool)
    requires forall i :: r0 < i <= r0 + |us| ==> InRange(PageAfter(i, pageLength, pageType), s, e)
    ensures SelectUnits(us, r0, s, e, pageLength, pageType) == Concat(us)
    decreases |us|
  {
    if us != [] {
      SelectAll(us[1..], r0 + 1, s, e, pageLength, pageType);
    }
  }

  /** When the selected reads are exactly those numbered a+1..b, the output is units a..b-1, whole and in order. */
  lemma SelectWindow(us: seq<string>, s: int, e: int, pageLength: int, pageType: bool, a: nat, b: nat)
    requires a <= b <= |us|
    requires forall i :: 0 < i <= |us| ==> (InRange(PageAfter(i, pageLength, pageType), s, e) <==> a < i <= b)
    ensures SelectUnits(us, 0, s, e, pageLength, pageType) == Concat(us[a..b])
  {
    assert us == us[..a] + us[a..b] + us[b..];
    SelectAppend(us[..a] + us[a..b], us[b..], 0, s, e, pageLength, pageType);
    SelectAppend(us[..a], us[a..b], 0, s, e, pageLength, pageType);
    SelectNone(us[..a], 0, s, e, pageLength, pageType);
    SelectAll(us[a..b], a, s, e, pageLength, pageType);
    SelectNone(us[b..], b, s, e, pageLength, pageType);
  }

  function Max(x: int, y: int): int { if x <= y then y else x }

  function Clamp(x: int, n: nat): (c: nat)
    ensures c <= n
  {
    if x < 0 then 0 else if x > n then n else x
  }

  /** The units numbered from..to-1 (counting from 0), cut to those that exist. */
  function UnitRange(us: seq<string>, from: int, to: int): seq<string>
  {
    us[Clamp(from, |us|) .. Clamp(Max(from, to), |us|)]
  }

  /**
   * Line mode: for an accepted range the output is the run of lines numbered
   * (s - 1) * L + 1 through e * L, cut short at the last complete line.
   */
  lemma LineModeWindow(input: string, s: int, e: int, pageLength: int)
    requires pageLength >= 1 && 1 <= s <= e
    ensures Selection(input, s, e, pageLength, false)
         == Concat(UnitRange(Units(input, Newline), (s - 1) * pageLength, e * pageLength))
  {
    var us := Units(input, Newline);
    var n := |us|;
    LineWindowOrdered(s, e, pageLength);
    var a, b := Clamp((s - 1) * pageLength, n), Clamp(e * pageLength, n);
    forall i | 0 < i <= n
      ensures InRange(PageAfter(i, pageLength, false), s, e) <==> a < i <= b
    {
      LinePageBounds(i, pageLength, s, e);
    }
    SelectWindow(us, s, e, pageLength, false, a, b);
  }

  /** Arithmetic helper: the line window of an accepted range starts at or after 0 and does not run backwards. */
  lemma LineWindowOrdered(s: int, e: int, pageLength: int)
    requires pageLength >= 1 && 1 <= s <= e
    ensures 0 <= (s - 1) * pageLength <= e * pageLength
  {
    assert e * pageLength - (s - 1) * pageLength == (e - s + 1) * pageLength;
    MulAtLeast(e - s + 1, pageLength);
  }

  /**
   * Form-feed mode: because the counter is bumped before the comparison, chunk i is
   * compared against page i + 1, so the output is chunks s - 1 through e - 1; page 1
   * never selects anything.
   */
  lemma FormFeedWindow(input: string, s: int, e: int, pageLength: int)
    requires 1 <= s <= e
    ensures Selection(input, s, e, pageLength, true)
         == Concat(UnitRange(Units(input, FormFeed), s - 2, e - 1))
  {
    var us := Units(input, FormFeed);
    forall i | 0 < i <= |us|
      ensures PageAfter(i, pageLength, true) == i + 1
    {
      CountersClosedForm(i, pageLength, true);
    }
    SelectWindow(us, s, e, pageLength, true, Clamp(s - 2, |us|), Clamp(e - 1, |us|));
  }

  /** Under -f the range 1..1 writes nothing, and the end-of-run check does not complain about it. */
  lemma FormFeedFirstPageEmpty(input: string, pageLength: int)
    ensures Selection(input, 1, 1, pageLength, true) == []
    ensures TotalPages(input, pageLength, true) >= 2
  {
    FormFeedWindow(input, 1, 1, pageLength);
    CountersClosedForm(|Units(input, FormFeed)| + 1, pageLength, true);
  }

  /** If the run ends with the counter still below the start page, nothing at all was written. */
  lemma NoOutputBeforeStart(input: string, s: int, e: int, pageLength: int, pageType: bool)
    requires TotalPages(input, pageLength, pageType) < s
    ensures Selection(input, s, e, pageLength, pageType) == []
  {
    var us := Units(input, Delimiter(pageType));
    forall i | 0 < i <= |us|
      ensures !InRange(PageAfter(i, pageLength, pageType), s, e)
    {
      PageMonotone(i, |us| + 1, pageLength, pageType);
    }
    SelectNone(us, 0, s, e, pageLength, pageType);
  }

  /** A trailing unit without its delimiter is never written and is not counted. */
  lemma TrailingUnitDropped(input: string, tail: string, s: int, e: int, pageLength: int, pageType: bool)
    requires input == [] || input[|input| - 1] == Delimiter(pageType)
    requires Delimiter(pageType) !in tail
    ensures Selection(input + tail, s, e, pageLength, pageType) == Selection(input, s, e, pageLength, pageType)
    ensures TotalPages(input + tail, pageLength, pageType) == TotalPages(input, pageLength, pageType)
  {
    UnitsIgnoreTrailing(input, tail, Delimiter(pageType));
  }

  /** Input of exactly m full pages of lines is m * L lines long and ends with the page counter at m + 1. */
  lemma FullPagesTotal(input: string, pageLength: int, m: nat)
    requires pageLength >= 1
    requires multiset(input)[Newline] == m * pageLength
    ensures |Units(input, Newline)| == m * pageLength
    ensures TotalPages(input, pageLength, false) == m + 1
  {
    UnitCount(input, Newline);
    DivModUnique(m * pageLength, pageLength, m, 0);
    CountersClosedForm(m * pageLength + 1, pageLength, false);
  }

  /** In line mode a page that starts after the last complete line selects nothing. */
  lemma PageBeyondLines(input: string, p: int, pageLength: int)
    requires pageLength >= 1 && p >= 1
    requires |Units(input, Newline)| <= (p - 1) * pageLength
    ensures Selection(input, p, p, pageLength, false) == []
  {
    var us := Units(input, Newline);
    LineModeWindow(input, p, p, pageLength);
    LineWindowOrdered(p, p, pageLength);
    assert UnitRange(us, (p - 1) * pageLength, p * pageLength) == us[|us|..|us|];
  }

  /**
   * Because the end-of-file read still advances the counters, input of exactly m full
   * pages of lines ends with the counter at m + 1, a page that holds no line.
   */
  lemma EofReadAdvances(input: string, pageLength: int, m: nat)
    requires pageLength >= 1
    requires multiset(input)[Newline] == m * pageLength
    ensures TotalPages(input, pageLength, false) == m + 1
    ensures Selection(input, m + 1, m + 1, pageLength, false) == []
  {
    FullPagesTotal(input, pageLength, m);
    PageBeyondLines(input, m + 1, pageLength);
  }
}
