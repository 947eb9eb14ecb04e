/** The pointer walk of `parseline` as the C code performs it: an index
    `buf` into the working copy, `strchr` for the delimiter, and the loop
    `while (delim)`. It computes exactly the recursive `Tokenizer.ParseLine`. */
module TokenizerLoop {
  import opened Tokenizer

  /** Skipping spaces from `p` stops at `i`, the first non-space from `p` on. */
  lemma {:induction false} SkipSpacesAt(buf: seq<char>, p: nat, i: nat)
    requires p <= i <= |buf|
    requires forall j :: p <= j < i ==> buf[j] == SPACE
    requires i == |buf| || buf[i] != SPACE
    ensures SkipSpaces(buf[p..]) == buf[i..]
    decreases i - p
  {
    if p < i {
      assert buf[p..][1..] == buf[p + 1..];
      SkipSpacesAt(buf, p + 1, i);
    }
  }

  /** The arguments still to come when the condition of `while (delim)` is
      evaluated, with `argv[argc]` about to point at `start`. */
  function Pending(buf: seq<char>, start: nat, delim: Option<nat>): seq<Arg>
    requires delim.Some? ==> start <= delim.value < |buf|
  {
    match delim
    case None => []
    case Some(d) => [buf[start..d]] + Scan(buf[d + 1..])
  }

  /** Where `strchr` from `from` puts the delimiter, as a position in `buf`. */
  function DelimFrom(buf: seq<char>, from: nat, c: char): (d: Option<nat>)
    requires from <= |buf|
    ensures d.Some? ==> from <= d.value < |buf|
  {
    match IndexOf(buf[from..], c)
    case None => None
    case Some(k) => Some(from + k)
  }

  /** Slicing a suffix is slicing the whole. */
  lemma SuffixSlices(buf: seq<char>, a: nat, k: nat)
    requires a + k < |buf|
    ensures buf[a..][..k] == buf[a..a + k]
    ensures buf[a..][k + 1..] == buf[a + k + 1..]
  {
  }

  /** A found delimiter closes one argument. */
  lemma PendingSome(buf: seq<char>, start: nat, d: nat)
    requires start <= d < |buf|
    ensures Pending(buf, start, Some(d)) == [buf[start..d]] + Scan(buf[d + 1..])
  {
  }

  /** Moving one argument from the pending tail to `argv`. */
  lemma PendingStep(argv: seq<Arg>, arg: Arg, rest: seq<Arg>, done: seq<Arg>)
    requires done == argv + ([arg] + rest)
    ensures (argv + [arg]) + rest == done
  {
  }

  /** `strchr` for `c` from `start` finds where `ScanUntil` ends the argument. */
  lemma PendingUntil(buf: seq<char>, start: nat, c: char)
    requires start <= |buf|
    ensures Pending(buf, start, DelimFrom(buf, start, c)) == ScanUntil(buf[start..], c)
  {
    var x := buf[start..];
    match IndexOf(x, c)
    case None =>
      assert DelimFrom(buf, start, c) == None;
    case Some(k) =>
      assert ScanUntil(x, c) == [x[..k]] + Scan(x[k + 1..]);
      assert DelimFrom(buf, start, c) == Some(start + k);
      PendingSome(buf, start, start + k);
      SuffixSlices(buf, start, k);
  }

  /** Lines 155-169, repeated at 176-187: skip the spaces from `p`; if a
      quote follows, step over it and look for the closing quote, otherwise
      look for the next space. `start` is where the argument begins and
      `delim` where `strchr` found its end. */
  method NextSpan(buf: seq<char>, p: nat) returns (start: nat, delim: Option<nat>)
    requires p <= |buf|
    ensures p <= start <= |buf|
    ensures delim.Some? ==> start <= delim.value < |buf|
    ensures Pending(buf, start, delim) == Scan(buf[p..])
  {
    var i := p;
    while i < |buf| && buf[i] == SPACE
      invariant p <= i <= |buf|
      invariant forall j :: p <= j < i ==> buf[j] == SPACE
    {
      i := i + 1;
    }
    SkipSpacesAt(buf, p, i);
    if i < |buf| && buf[i] == QUOTE {
      start := i + 1;
      delim := DelimFrom(buf, start, QUOTE);
      assert buf[i..][1..] == buf[start..];
      PendingUntil(buf, start, QUOTE);
    } else {
      start := i;
      delim := DelimFrom(buf, start, SPACE);
      PendingUntil(buf, start, SPACE);
    }
  }

  /** `parseline` as written: stage the copy, take spans while `strchr`
      finds a delimiter, then apply the blank-line and `&` rules. */
  method ParseLineLoop(line: seq<char>) returns (argv: seq<Arg>, bg: bool)
    requires |line| > 0
    ensures Parsed(argv, bg) == ParseLine(line)
  {
    var buf := line[..|line| - 1] + [SPACE];
    var start, delim := NextSpan(buf, 0);
    assert buf[0..] == buf;
    argv := [];
    while delim.Some?
      invariant start <= |buf|
      invariant delim.Some? ==> start <= delim.value < |buf|
      invariant argv + Pending(buf, start, delim) == Scan(buf)
      decreases |buf| - start
    {
      var d := delim.value;
      var arg := buf[start..d];
      ghost var done := argv + Pending(buf, start, delim);
      PendingSome(buf, start, d);
      start, delim := NextSpan(buf, d + 1);
      PendingStep(argv, arg, Pending(buf, start, delim), done);
      argv := argv + [arg];
    }
    assert argv == Scan(Stage(line));
    if argv == [] {
      return [], true;
    }
    bg := IsMarker(argv[|argv| - 1]);
    if bg {
      argv := argv[..|argv| - 1];
    }
  }
}
