/** Model of `parseline` in shell.c: the tokenizer that turns one input line
    into an argument vector and a background flag.

    A `seq<char>` stands for the characters of a C string before its
    terminating NUL. The C code copies the line, overwrites its last
    character (normally the newline) with a space, and walks the copy with
    `strchr`; `Scan` is that walk written as a recursion over the suffix
    still to be read. */
module Tokenizer {

  datatype Option<T> = None | Some(value: T)

  const SPACE: char := ' '
  const QUOTE: char := '\''
  const AMPERSAND: char := '&'
  const NEWLINE: char := '\n'

  /** One element of `argv`. */
  type Arg = seq<char>

  /** `strchr`: the position of the first `c` in `s`, or None. */
  function IndexOf(s: seq<char>, c: char): (r: Option<nat>)
    ensures r.Some? ==> r.value < |s| && s[r.value] == c
    ensures r.Some? ==> forall j :: 0 <= j < r.value ==> s[j] != c
    ensures r.None? <==> c !in s
  {
    if |s| == 0 then None
    else if s[0] == c then Some(0)
    else
      match IndexOf(s[1..], c)
      case None =>
        assert s == [s[0]] + s[1..];
        None
      case Some(k) =>
        Some(k + 1)
  }

  /** The `while (*buf && (*buf == ' ')) buf++;` loops: drop leading spaces. */
  function SkipSpaces(s: seq<char>): (r: seq<char>)
    ensures |r| <= |s|
    ensures forall i :: 0 <= i < |s| - |r| ==> s[i] == SPACE
    ensures r == [] || r[0] != SPACE
    decreases |s|
  {
    if |s| > 0 && s[0] == SPACE then SkipSpaces(s[1..]) else s
  }

  /** An argument that can be typed without quotes: a word that does not
      open a quoted span. */
  predicate Bare(a: Arg)
  {
    |a| > 0 && SPACE !in a && a[0] != QUOTE
  }

  /** An argument the tokenizer can deliver: a bare word, or a span with no
      quote inside it. */
  predicate Renderable(a: Arg)
  {
    Bare(a) || QUOTE !in a
  }

  /** The arguments found in `s`: skip the leading spaces, then read from
      the first token. */
  function Scan(s: seq<char>): seq<Arg>
    decreases |s|, 2
  {
    ScanToken(SkipSpaces(s))
  }

  /** The arguments of a text that starts at a token: a quote opens a span
      that runs to the next quote, anything else a word that runs to the
      next space. */
  function ScanToken(r: seq<char>): seq<Arg>
    decreases |r|, 1
  {
    if r != [] && r[0] == QUOTE then ScanUntil(r[1..], QUOTE) else ScanUntil(r, SPACE)
  }

  /** The argument running from the start of `x` to the first `c`, then the
      arguments after that `c`. When `c` does not occur, `strchr` returned
      NULL: the walk stops and the rest of `x` yields nothing. */
  function ScanUntil(x: seq<char>, c: char): seq<Arg>
    decreases |x|, 0
  {
    match IndexOf(x, c)
    case None => []
    case Some(k) => [x[..k]] + Scan(x[k + 1..])
  }

  /** Line 154: the working copy, with its last character replaced by a space. */
  function Stage(line: seq<char>): (r: seq<char>)
    requires |line| > 0
    ensures |r| == |line| && r[|r| - 1] == SPACE
    ensures forall i :: 0 <= i < |line| - 1 ==> r[i] == line[i]
  {
    line[..|line| - 1] + [SPACE]
  }

  /** A token whose first character is `&`: the background marker. */
  predicate IsMarker(a: Arg)
  {
    |a| > 0 && a[0] == AMPERSAND
  }

  /** What `parseline` hands back: `argv` up to its NULL, and the return value. */
  datatype Parsed = Parsed(argv: seq<Arg>, bg: bool)

  /** `parseline`. A line with no token asks for the background (returns 1)
      with an empty `argv`; otherwise a last token starting with `&` is
      dropped and turns the background flag on, and any other last token
      leaves `argv` as scanned with the flag off. */
  function ParseLine(line: seq<char>): (r: Parsed)
    requires |line| > 0
    ensures var toks := Scan(Stage(line));
      && r.argv <= toks
      && |toks| - |r.argv| <= 1
      && (|r.argv| < |toks| <==> toks != [] && IsMarker(toks[|toks| - 1]))
      && (r.bg <==> toks == [] || IsMarker(toks[|toks| - 1]))
  {
    var toks := Scan(Stage(line));
    if toks == [] then Parsed([], true)
    else if IsMarker(toks[|toks| - 1]) then Parsed(toks[..|toks| - 1], true)
    else Parsed(toks, false)
  }

  /** How an argument is typed so that `Scan` gives it back. */
  function Render(a: Arg): seq<char>
  {
    if Bare(a) then a else [QUOTE] + a + [QUOTE]
  }

  /** Each argument rendered and followed by one space. */
  function Unparse(args: seq<Arg>): (u: seq<char>)
    ensures args != [] ==> |u| > 0 && u[|u| - 1] == SPACE
  {
    if args == [] then [] else Render(args[0]) + [SPACE] + Unparse(args[1..])
  }

  /** The input line a user types for `args`: the arguments rendered,
      separated by single spaces, ended by a newline. */
  function CommandLine(args: seq<Arg>): (line: seq<char>)
    ensures |line| > 0 && line[|line| - 1] == NEWLINE
  {
    if args == [] then [NEWLINE]
    else
      var u := Unparse(args);
      u[..|u| - 1] + [NEWLINE]
  }

  /** The line that asks for `p`: its arguments, then `&` when it is a background job. */
  function Format(p: Parsed): seq<char>
  {
    CommandLine(p.argv + if p.bg then [[AMPERSAND]] else [])
  }

  /** `n` spaces. */
  function Spaces(n: nat): seq<char>
  {
    seq(n, _ => SPACE)
  }

  /** Splits at every space, keeping the empty pieces between adjacent spaces. */
  function Fields(s: seq<char>): (f: seq<seq<char>>)
    ensures |f| > 0
  {
    if s == [] then [[]]
    else
      var f := Fields(s[1..]);
      if s[0] == SPACE then [[]] + f else [[s[0]] + f[0]] + f[1..]
  }

  /** The non-empty elements of `f`, in order. */
  function NonEmpty(f: seq<seq<char>>): seq<seq<char>>
  {
    if f == [] then []
    else (if f[0] == [] then [] else [f[0]]) + NonEmpty(f[1..])
  }
}
