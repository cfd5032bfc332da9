/**
 * The buffered reader that selpg pulls its input through: ReadString(delim)
 * returns everything up to and including the next delimiter, or, when no
 * delimiter is left, the whole remainder together with end-of-file.
 * The input stream is modelled as the sequence of characters not yet read.
 */
module Reader {
  import opened Seqs

  /** One result of ReadString: the characters returned and whether io.EOF came with them. */
  datatype Read = Read(data: string, eof: bool)

  /** A unit that a successful read returns: it ends with the delimiter and holds no other. */
  predicate Terminated(u: string, delim: char)
  {
    |u| > 0 && u[|u| - 1] == delim && delim !in u[..|u| - 1]
  }

  /** Position of the first `c` in `s`, or |s| when there is none. */
  function IndexOf(s: string, c: char): (k: nat)
    ensures k <= |s|
    ensures k < |s| ==> s[k] == c
    ensures c !in s[..k]
  {
    if s == [] then 0
    else if s[0] == c then 0
    else
      var k := 1 + IndexOf(s[1..], c);
      assert s[..k] == [s[0]] + s[1..][..k - 1];
      k
  }

  /** bufio.Reader.ReadString over the characters not yet read. */
  function ReadString(rest: string, delim: char): (r: Read)
    ensures r.data <= rest
    ensures r.eof <==> delim !in rest
    ensures r.eof ==> r.data == rest
    ensures !r.eof ==> Terminated(r.data, delim)
  {
    var k := IndexOf(rest, delim);
    if k < |rest| then
      assert rest[..k + 1][..k] == rest[..k];
      Read(rest[..k + 1], false)
    else
      Read(rest, true)
  }

  /** The delimiter-terminated units that successive reads return before the one reporting end-of-file. */
  function Units(s: string, delim: char): (us: seq<string>)
    ensures forall i :: 0 <= i < |us| ==> Terminated(us[i], delim)
    decreases |s|
  {
    var r := ReadString(s, delim);
    if r.eof then [] else [r.data] + Units(s[|r.data|..], delim)
  }

  /** A read that does not hit end-of-file returns the first unit; the rest are read from what follows it. */
  lemma UnitsUnfold(s: string, delim: char)
    requires !ReadString(s, delim).eof
    ensures Units(s, delim) == [ReadString(s, delim).data] + Units(s[|ReadString(s, delim).data|..], delim)
  {
  }

  /** What the final read returns together with end-of-file: the text after the last delimiter. */
  function Remainder(s: string, delim: char): (t: string)
    ensures delim !in t
    decreases |s|
  {
    var r := ReadString(s, delim);
    if r.eof then s else Remainder(s[|r.data|..], delim)
  }

  /** The text of a sequence of units, written one after the other. */
  function Concat(us: seq<string>): string
  {
    if us == [] then [] else us[0] + Concat(us[1..])
  }

  /** Reading the input to the end loses nothing: the units followed by the remainder are the input. */
  lemma {:induction false} SplitRoundTrip(s: string, delim: char)
    ensures Concat(Units(s, delim)) + Remainder(s, delim) == s
    decreases |s|
  {
    var r := ReadString(s, delim);
    if !r.eof {
      var rest := s[|r.data|..];
      var us := Units(rest, delim);
      SplitRoundTrip(rest, delim);
      UnitsUnfold(s, delim);
      ConsParts(r.data, us);
      PrefixSplit(r.data, s);
      AppendAssoc(r.data, Concat(us), Remainder(rest, delim));
    }
  }

  /** There is one unit per delimiter in the input, so a whole read-through makes that many reads plus one. */
  lemma {:induction false} UnitCount(s: string, delim: char)
    ensures |Units(s, delim)| == multiset(s)[delim]
    decreases |s|
  {
    var r := ReadString(s, delim);
    if !r.eof {
      var u := r.data;
      var rest := s[|u|..];
      UnitCount(rest, delim);
      UnitsUnfold(s, delim);
      PrefixSplit(u, s);
      LastSplit(u);
      assert multiset(s) == multiset(u) + multiset(rest);
      assert multiset(u) == multiset(u[..|u| - 1]) + multiset([delim]);
      assert multiset(u[..|u| - 1])[delim] == 0;
    }
  }

  /** The first read of `s + t` sees the same unit as the first read of `s` when `s` holds a delimiter. */
  lemma ReadStringExtend(s: string, t: string, delim: char)
    requires delim in s
    ensures ReadString(s + t, delim) == ReadString(s, delim)
  {
    var k := IndexOf(s, delim);
    var k' := IndexOf(s + t, delim);
    assert (s + t)[..k] == s[..k];
    assert (s + t)[..k + 1] == s[..k + 1];
  }

  /** Text after the last delimiter never changes the units that are read. */
  lemma {:induction false} UnitsIgnoreTrailing(s: string, t: string, delim: char)
    requires s == [] || s[|s| - 1] == delim
    requires delim !in t
    ensures Units(s + t, delim) == Units(s, delim)
    ensures Remainder(s + t, delim) == t
    decreases |s|
  {
    if s == [] {
      assert s + t == t;
    } else {
      assert s[|s| - 1] in s;
      ReadStringExtend(s, t, delim);
      var r := ReadString(s, delim);
      var rest := s[|r.data|..];
      assert (s + t)[|r.data|..] == rest + t;
      UnitsIgnoreTrailing(rest, t, delim);
    }
  }
}
