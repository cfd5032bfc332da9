# selpg in Dafny

`selpg` copies a range of pages from a text stream to standard output. A page is
either a fixed number of lines (`-l`, default 72) or a run of text ended by a
form feed (`-f`). The program checks its arguments with an ordered list of
rules. It then reads the input one unit at a time with `bufio.Reader.ReadString`,
keeps a line counter and a page counter, and writes each unit whose page lies
in `[startPage, endPage]`. When the input runs out, it compares the final page
counter with the requested range.

The model has five modules:

- `Args` (`args.dfy`): the `selpgArgs` record, the `-1` "unset" sentinel and the
  default length 72, and `CheckArgs` as a pure function from the record to one
  of six outcomes.
- `Reader` (`reader.dfy`): `ReadString` as a function of the characters not yet
  read. It returns the prefix up to and including the first delimiter, or all
  that is left together with end-of-file. `Units` lists what successive reads
  return before end-of-file, and `Remainder` is what the last read returns.
- `Paging` (`paging.dfy`): how one read changes the counters (`Advance`), the
  counters after `r` reads (`CountersAfter`) and their closed form. It also holds
  the text the loop writes (`Selection`), the final page counter (`TotalPages`),
  and lemmas that give the written text as a contiguous run of units.
- `Seqs` (`seqs.dfy`): generic facts about sequences that the proofs about
  strings and lists of lines use.
- `Selpg` (`selpg.dfy`): `Output2Des` as a method with the source's `for true`
  loop, its two counters and a growing output string; the final range check
  `RangeCheck`; and a whole run `Selpg` (validate, then stream).

Behaviour pinned down as written in the source:

- Under `-f` the page counter is bumped before the comparison, so chunk `i` is
  compared against page `i + 1`. The first chunk counts as page 2, and
  `-s1 -e1 -f` writes nothing and reports no error (`FormFeedFirstPageEmpty`).
- The read that returns end-of-file still advances the counters and then leaves
  the loop without writing. A trailing unit with no delimiter is never written
  (`TrailingUnitDropped`). Input of exactly `m` full pages ends with the counter
  at `m + 1` (`EofReadAdvances`).
- `Output2Des` has no precondition. In line mode a page length of zero or less
  makes every read overflow the line counter, so the page goes up on every read.
  The model computes this too.

Facts about the code that a reader of the usage text might not expect:

- Every path the model covers ends with exit status 0: the validator's and the
  range check's errors call `os.Exit(0)` (selpg.go:53-66, 166-172), and a run
  that passes the range check returns from `main`. Two paths the model leaves
  out end with status 2. One is the `panic` in `CheckError` (selpg.go:81-86).
  The other is a flag that `pflag.Parse()` rejects in `GetArgs` (selpg.go:34),
  such as `-s x` or an unknown option: pflag's command-line set exits on a parse
  error before `CheckArgs` runs. So no modelled outcome is distinguished by exit
  status.
- `-d` never opens a pipe: both branches of `DoSelpg` write to standard output
  (selpg.go:99-103).
- The unit returned together with end-of-file is dropped, not written
  (selpg.go:149-151).

## Model

| member | source | states |
|---|---|---|
| `Args.CheckArgs` | selpg.go:44-79 | accepts exactly when 1 <= startPage <= endPage, pageLength >= 1 and -f implies pageLength == 72; each error outcome is characterised by its own condition given the earlier rules pass: unset (-1) wins over any other fault, other non-positive bounds are the negative-page error, with -f any length other than 72 (even <= 0) is the conflict, so the length error only arises in line mode |
| `Reader.IndexOf` | selpg.go:137 | the search that bufio's `ReadString`, called here, performs inside the reader: the first position of the delimiter, or the length when there is none |
| `Reader.ReadString` | selpg.go:135-141 | the result is a prefix of the unread input; end-of-file is reported exactly when no delimiter is left, and then the whole rest is returned; otherwise the unit ends with the delimiter and holds no other |
| `Reader.Units` | selpg.go:131-151 | every unit read before end-of-file ends with the delimiter and holds no other |
| `Reader.Remainder` | selpg.go:149-150 | what the final read returns holds no delimiter |
| `Reader.SplitRoundTrip` | selpg.go:131-151 | the units read before end-of-file, followed by what the final read returns, are exactly the input |
| `Reader.UnitCount` | selpg.go:131-150 | there are as many units as delimiters in the input, so a run makes that many reads plus the final one |
| `Reader.ReadStringExtend` | selpg.go:137-141 | text appended after a delimiter does not change what the next read returns |
| `Reader.UnitsIgnoreTrailing` | selpg.go:149-150 | text without a delimiter after the last delimiter changes no unit and is exactly what the final read returns |
| `Paging.Advance` | selpg.go:135-147 | one read never lowers the page counter and raises it by at most one; under -f it always raises it |
| `Paging.LineModeStep` | selpg.go:141-146 | in line mode one more line moves ((k % L) + 1, k / L + 1) to the same form for k + 1, as the counter update does |
| `Paging.CountersClosedForm` | selpg.go:128-146 | after r reads the counters are: under -f page r + 1; in line mode page (r - 1) / L + 1 and line (r - 1) % L + 1; with L <= 0 page r + 1 and line 1 |
| `Paging.LineCountInPage` | selpg.go:141-146 | after every read in line mode 1 <= lineCount <= pageLength |
| `Paging.PageMonotone` | selpg.go:129-146 | the page counter never decreases over reads |
| `Paging.LinePageBounds` | selpg.go:141-146 | in line mode read i is at page >= s exactly when i > (s - 1) * L, and at page <= e exactly when i <= e * L |
| `Paging.LinePage` | selpg.go:141-146 | in line mode read i is on page p exactly when (p - 1) * L < i <= p * L: lines 1..L on page 1, L+1..2L on page 2 |
| `Paging.SelectSnoc` | selpg.go:153-164 | after one more unit the output grows by that unit exactly when its page is in range |
| `Paging.SelectAppend` | selpg.go:131-164 | the output for two runs of units is the output for the first followed by the output for the second |
| `Paging.SelectNone` | selpg.go:153 | units whose pages all lie outside the range add nothing to the output |
| `Paging.SelectAll` | selpg.go:153-164 | units whose pages all lie in the range are written whole and in order |
| `Paging.SelectWindow` | selpg.go:153-164 | when the reads in range are exactly a+1..b, the output is units a..b-1 concatenated |
| `Paging.LineModeWindow` | selpg.go:141-164 | in line mode with 1 <= s <= e the output is the complete lines numbered (s - 1) * L + 1 through e * L, concatenated in order and cut at the last complete line |
| `Paging.FormFeedWindow` | selpg.go:137-164 | under -f with 1 <= s <= e the output is chunks s - 1 through e - 1 (one page early) |
| `Paging.FormFeedFirstPageEmpty` | selpg.go:137-172 | under -f the range 1..1 writes nothing and the final counter is at least 2, so no error is reported |
| `Paging.NoOutputBeforeStart` | selpg.go:166-167 | if the final page counter is below startPage, the output is empty |
| `Paging.TrailingUnitDropped` | selpg.go:149-150 | appending text without a delimiter after a delimiter changes neither the output nor the final page counter |
| `Paging.FullPagesTotal` | selpg.go:141-150 | input holding exactly m * L newlines gives m * L complete lines and a final page counter of m + 1 |
| `Paging.PageBeyondLines` | selpg.go:141-153 | in line mode a page p whose first line, (p - 1) * L + 1, lies past the last complete line writes nothing |
| `Paging.EofReadAdvances` | selpg.go:141-150 | input of exactly m full pages of lines ends with the counter at m + 1, and asking for page m + 1 writes nothing |
| `Selpg.RangeCheck` | selpg.go:166-172 | the start-page error exactly when the counter is below startPage, carrying both numbers; the end-page error only when it is at least startPage and below endPage; success only when it reaches both |
| `Selpg.Output2Des` | selpg.go:126-173 | the output is exactly the delimiter-terminated units whose page is in range, in order; the returned counter is the final page counter; the outcome is the range check of that counter; the start-page error comes only with empty output |
| `Selpg.Selpg` | selpg.go:21-26 | a rejected configuration writes no page and reports the validator's outcome; an accepted one writes the selection and reports the range check |
| `Selpg.ShortInputTotal` | selpg.go:141-150 | 25 complete lines at 10 per page end with the page counter at 3 |
| `Selpg.ShortInputEndBeyond` | selpg.go:153-172 | on that input pages 1..5 write every line and report the end page (5) as past the total (3) |
| `Selpg.ShortInputStartBeyond` | selpg.go:166-168 | on that input pages 5..6 write nothing and report the start page (5) as past the total (3) |

## Left out

- `GetArgs` (selpg.go:28-42): it only calls the `pflag` flag parser, which is not part of this model. A command line the parser rejects (a non-integer page number, an unknown option) ends the program with status 2 before validation, and is not modelled. Its defaults (-1 for the page bounds, 72 for the length) are the constants `Args.Unset` and `Args.DefaultPageLength`.
- The usage text and the configuration banner that `CheckArgs` prints with `fmt.Printf` (selpg.go:47-52, 70-75), and every error message. The error messages go to standard error, but the usage text and the banner go to standard output, the same stream as the pages. So the real standard output is the usage text on `Usage` and the banner followed by the selected pages on `Accept`. The model's `output` holds only the pages, and the outcomes are datatype values instead of messages.
- `CheckFileAccess`, `os.Open` and the choice of standard input in `DoSelpg` (selpg.go:88-112): file-system I/O. The input is given as a string, and the `inputFile` field is carried but not read.
- `CMDExec` (selpg.go:115-124): it starts the external `lp` command, and nothing calls it. No destination pipe is modelled.
- The runtime type switch on `fout` (selpg.go:155-162): the sink is the returned output string.
- `CheckError` and its `panic` on read or write errors (selpg.go:81-86): reads and writes are total, and end-of-file is the only way the loop ends.
- Exit statuses: every modelled path ends with status 0 (an `os.Exit(0)` or the return from `main`), so outcomes are values, not statuses. Status 2 is not modelled. It comes from an unrecovered `panic` in `CheckError` or from a flag-parse error in `GetArgs` (selpg.go:34).
- Bytes versus characters: the input is a `seq<char>`. The two delimiters are single ASCII characters, so splitting is the same as over bytes.
- `Selpg.Output2Des`: Go's `int` is 32 or 64 bits wide depending on the platform, and pflag parses `-s`, `-e` and `-l` at that width. The model's counters are unbounded, so wrap-around of `pageCount` (after about 2^31 or 2^63 reads) is not modelled. After such a wrap-around the source would stop writing and report the start page as past the total.
- Running the same input twice gives the same output because every part of the model is a function of its inputs. There is no separate lemma for this.
