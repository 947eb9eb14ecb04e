/** Properties of the `parseline` model: what each kind of span on the line
    turns into, the reference split at spaces, and the round trip between
    an argument vector and the line that asks for it. */
module TokenizerProps {
  import opened Tokenizer

  /** Leading spaces are skipped one at a time. */
  lemma {:induction false} SkipSpacesPrefix(n: nat, t: seq<char>)
    ensures SkipSpaces(Spaces(n) + t) == SkipSpaces(t)
  {
    if n == 0 {
      assert Spaces(n) + t == t;
    } else {
      var s := Spaces(n) + t;
      assert s[0] == SPACE;
      assert s[1..] == Spaces(n - 1) + t;
      SkipSpacesPrefix(n - 1, t);
    }
  }

  /** Skipping spaces keeps the rest of the text: the result is the suffix
      of the input after the dropped spaces. */
  lemma {:induction false} SkipSpacesSuffix(s: seq<char>)
    ensures SkipSpaces(s) == s[|s| - |SkipSpaces(s)|..]
    decreases |s|
  {
    if |s| > 0 && s[0] == SPACE {
      SkipSpacesSuffix(s[1..]);
      assert s[1..][|s[1..]| - |SkipSpaces(s[1..])|..] == s[|s| - |SkipSpaces(s)|..];
    }
  }

  /** Leading or repeated spaces never produce an argument. */
  lemma ScanLeadingSpaces(n: nat, t: seq<char>)
    ensures Scan(Spaces(n) + t) == Scan(t)
  {
    SkipSpacesPrefix(n, t);
  }

  /** An all-space text holds no argument. */
  lemma ScanAllSpaces(n: nat)
    ensures Scan(Spaces(n)) == []
  {
    var empty: seq<char> := [];
    assert Spaces(n) + empty == Spaces(n);
    ScanLeadingSpaces(n, empty);
    ScanEmpty();
  }

  /** The empty text holds no argument. */
  lemma ScanEmpty()
    ensures Scan([]) == []
  {
    assert Scan([]) == ScanUntil([], SPACE);
  }

  /** `strchr` stops at the first occurrence. */
  lemma IndexOfFirst(a: seq<char>, c: char, t: seq<char>)
    requires c !in a
    ensures IndexOf(a + [c] + t, c) == Some(|a|)
  {
    var s := a + [c] + t;
    assert s[|a|] == c;
  }

  /** Every argument the tokenizer delivers is a bare word or a span with
      no quote inside it. */
  lemma {:induction false} ScanRenderable(s: seq<char>)
    ensures forall i :: 0 <= i < |Scan(s)| ==> Renderable(Scan(s)[i])
    decreases |s|
  {
    var r := SkipSpaces(s);
    var quoted := r != [] && r[0] == QUOTE;
    var x := if quoted then r[1..] else r;
    var c := if quoted then QUOTE else SPACE;
    assert Scan(s) == ScanUntil(x, c);
    match IndexOf(x, c)
    case None =>
    case Some(k) =>
      SpanRenderable(x, c, k);
      ScanRenderable(x[k + 1..]);
      RenderableCons(x[..k], Scan(x[k + 1..]));
  }

  /** The text before the first `c` is a deliverable argument, when `c` is
      the quote or `c` is the space and the text starts a word. */
  lemma SpanRenderable(x: seq<char>, c: char, k: nat)
    requires k < |x| && x[k] == c && forall j :: 0 <= j < k ==> x[j] != c
    requires c == QUOTE || (c == SPACE && x[0] != SPACE && x[0] != QUOTE)
    ensures Renderable(x[..k])
  {
    assert forall j :: 0 <= j < k ==> x[..k][j] == x[j];
    if c == SPACE {
      assert k > 0;
    }
  }

  /** Prepending a deliverable argument keeps every argument deliverable. */
  lemma RenderableCons(arg: Arg, rest: seq<Arg>)
    requires Renderable(arg)
    requires forall i :: 0 <= i < |rest| ==> Renderable(rest[i])
    ensures forall i :: 0 <= i < |[arg] + rest| ==> Renderable(([arg] + rest)[i])
  {
  }

  /** A word followed by a space is one argument, taken as written. */
  lemma ScanWord(w: seq<char>, t: seq<char>)
    requires Bare(w)
    ensures Scan(w + [SPACE] + t) == [w] + Scan(t)
  {
    var s := w + [SPACE] + t;
    assert s[0] == w[0];
    assert SkipSpaces(s) == s;
    assert Scan(s) == ScanUntil(s, SPACE);
    IndexOfFirst(w, SPACE, t);
    assert ScanUntil(s, SPACE) == [s[..|w|]] + Scan(s[|w| + 1..]);
    assert s[..|w|] == w;
    assert s[|w| + 1..] == t;
  }

  /** A span between two quotes is one argument with the quotes stripped;
      spaces inside it are kept, and `''` gives the empty argument. */
  lemma ScanQuoted(q: seq<char>, t: seq<char>)
    requires QUOTE !in q
    ensures Scan([QUOTE] + q + [QUOTE] + t) == [q] + Scan(t)
  {
    var s := [QUOTE] + q + [QUOTE] + t;
    assert SkipSpaces(s) == s;
    var x := s[1..];
    assert x == q + [QUOTE] + t;
    assert Scan(s) == ScanUntil(x, QUOTE);
    IndexOfFirst(q, QUOTE, t);
    assert ScanUntil(x, QUOTE) == [x[..|q|]] + Scan(x[|q| + 1..]);
    assert x[..|q|] == q;
    assert x[|q| + 1..] == t;
  }

  /** `''` is an argument of its own: the empty string. */
  lemma ScanEmptyQuotes(t: seq<char>)
    ensures Scan([QUOTE, QUOTE] + t) == [[]] + Scan(t)
  {
    var empty: seq<char> := [];
    assert [QUOTE, QUOTE] + t == [QUOTE] + empty + [QUOTE] + t;
    ScanQuoted(empty, t);
  }

  /** A quote with no closing quote ends the scan: the rest of the line
      yields no argument at all. */
  lemma ScanUnterminatedQuote(n: nat, q: seq<char>)
    requires QUOTE !in q
    ensures Scan(Spaces(n) + [QUOTE] + q) == []
  {
    ScanLeadingSpaces(n, [QUOTE] + q);
    assert Spaces(n) + [QUOTE] + q == Spaces(n) + ([QUOTE] + q);
    var s := [QUOTE] + q;
    assert SkipSpaces(s) == s;
    assert s[1..] == q;
    assert Scan(s) == ScanUntil(q, QUOTE);
  }

  /** Any argument the tokenizer can deliver, written by `Render` and
      followed by a space, is read back as exactly that argument. */
  lemma ScanRender(a: Arg, t: seq<char>)
    requires Renderable(a)
    ensures Scan(Render(a) + [SPACE] + t) == [a] + Scan(t)
  {
    if Bare(a) {
      ScanWord(a, t);
    } else {
      ScanQuoted(a, [SPACE] + t);
      assert Render(a) + [SPACE] + t == [QUOTE] + a + [QUOTE] + ([SPACE] + t);
      ScanLeadingSpaces(1, t);
      assert Spaces(1) + t == [SPACE] + t;
    }
  }

  /** Round trip: scanning the rendered arguments gives them back. */
  lemma {:induction false} ScanUnparse(args: seq<Arg>)
    requires forall i :: 0 <= i < |args| ==> Renderable(args[i])
    ensures Scan(Unparse(args)) == args
  {
    if args == [] {
      ScanEmpty();
    } else {
      ScanUnparse(args[1..]);
      ScanRender(args[0], Unparse(args[1..]));
      assert [args[0]] + args[1..] == args;
    }
  }

  /** A word followed by a space is the first field. */
  lemma {:induction false} FieldsWord(w: seq<char>, t: seq<char>)
    requires SPACE !in w
    ensures Fields(w + [SPACE] + t) == [w] + Fields(t)
  {
    var s := w + [SPACE] + t;
    if w == [] {
      assert s == [SPACE] + t;
      assert s[1..] == t;
    } else {
      assert s[1..] == w[1..] + [SPACE] + t;
      FieldsWord(w[1..], t);
      assert [s[0]] + w[1..] == w;
    }
  }

  /** A leading space is dropped by both the scan and the split. */
  lemma SplitSpaceStep(s: seq<char>)
    requires s != [] && s[0] == SPACE
    ensures Scan(s) == Scan(s[1..])
    ensures NonEmpty(Fields(s)) == NonEmpty(Fields(s[1..]))
  {
    ScanLeadingSpaces(1, s[1..]);
    assert Spaces(1) + s[1..] == s;
    var f := Fields(s[1..]);
    assert Fields(s) == [[]] + f;
    assert ([[]] + f)[1..] == f;
  }

  /** A leading word is the first argument of the scan and of the split. */
  lemma SplitWordStep(s: seq<char>) returns (w: seq<char>, t: seq<char>)
    requires QUOTE !in s && s != [] && s[0] != SPACE && s[|s| - 1] == SPACE
    ensures |t| < |s| && QUOTE !in t && (t == [] || t[|t| - 1] == SPACE)
    ensures Scan(s) == [w] + Scan(t)
    ensures NonEmpty(Fields(s)) == [w] + NonEmpty(Fields(t))
  {
    assert SPACE in s by { assert s[|s| - 1] == SPACE; }
    var k := IndexOf(s, SPACE).value;
    w, t := s[..k], s[k + 1..];
    assert s == w + [SPACE] + t;
    assert Bare(w) by {
      assert k > 0;
      assert w[0] == s[0];
    }
    ScanWord(w, t);
    FieldsWord(w, t);
    assert ([w] + Fields(t))[1..] == Fields(t);
  }

  /** Outside quotes, the arguments are exactly the non-empty pieces between
      spaces: each one a maximal run of non-space characters. The text must
      end in a space, as the staged line always does. */
  lemma {:induction false} ScanSplitsOnSpaces(s: seq<char>)
    requires QUOTE !in s
    requires s == [] || s[|s| - 1] == SPACE
    ensures Scan(s) == NonEmpty(Fields(s))
    decreases |s|
  {
    if s == [] {
      ScanEmpty();
    } else if s[0] == SPACE {
      SplitSpaceStep(s);
      ScanSplitsOnSpaces(s[1..]);
    } else {
      var w, t := SplitWordStep(s);
      ScanSplitsOnSpaces(t);
    }
  }

  /** Space separation on the whole line: with no quote on it, `parseline`
      scans the non-empty space-separated pieces of the staged line. */
  lemma TokensSplitOnSpaces(line: seq<char>)
    requires |line| > 0 && QUOTE !in line[..|line| - 1]
    ensures Scan(Stage(line)) == NonEmpty(Fields(Stage(line)))
  {
    ScanSplitsOnSpaces(Stage(line));
  }

  /** A blank line: no argument, and the background return value 1. */
  lemma ParseLineBlank(line: seq<char>)
    requires |line| > 0
    requires forall i :: 0 <= i < |line| - 1 ==> line[i] == SPACE
    ensures ParseLine(line) == Parsed([], true)
  {
    assert Stage(line) == Spaces(|line|);
    ScanAllSpaces(|line|);
  }

  /** The staged `CommandLine` is the rendered arguments. */
  lemma StageCommandLine(args: seq<Arg>)
    requires args != []
    ensures Stage(CommandLine(args)) == Unparse(args)
  {
    var u := Unparse(args);
    assert CommandLine(args)[..|u| - 1] == u[..|u| - 1];
  }

  /** The arguments of `p` followed, for a background job, by the `&` token. */
  function WithMarker(p: Parsed): seq<Arg>
  {
    p.argv + if p.bg then [[AMPERSAND]] else []
  }

  /** Scanning the line that asks for `p` gives its arguments and the marker. */
  lemma ScanFormat(p: Parsed)
    requires forall i :: 0 <= i < |p.argv| ==> Renderable(p.argv[i])
    requires p.bg || p.argv != []
    ensures Scan(Stage(Format(p))) == WithMarker(p)
  {
    var toks := WithMarker(p);
    assert forall i :: 0 <= i < |toks| ==> Renderable(toks[i]) by {
      forall i | 0 <= i < |toks|
        ensures Renderable(toks[i])
      {
        if i < |p.argv| {
          assert toks[i] == p.argv[i];
        } else {
          assert toks[i] == [AMPERSAND];
        }
      }
    }
    assert Format(p) == CommandLine(toks);
    StageCommandLine(toks);
    ScanUnparse(toks);
  }

  /** Round trip: the line that asks for `args` (with `&` appended for a
      background job) parses back to `args` and the same flag. A foreground
      job needs an argument, and its last one must not start with `&`, which
      would be read as the marker. */
  lemma ParseLineRoundTrip(args: seq<Arg>, bg: bool)
    requires forall i :: 0 <= i < |args| ==> Renderable(args[i])
    requires bg || (args != [] && !IsMarker(args[|args| - 1]))
    ensures ParseLine(Format(Parsed(args, bg))) == Parsed(args, bg)
  {
    var p := Parsed(args, bg);
    ScanFormat(p);
    var toks := WithMarker(p);
    if bg {
      assert toks[..|toks| - 1] == args;
      assert IsMarker(toks[|toks| - 1]);
    } else {
      assert toks == args;
    }
  }

  /** `parseline` is idempotent through `Format`: formatting its result as a
      line and parsing that line again gives the same result. */
  lemma ParseLineReparse(line: seq<char>)
    requires |line| > 0
    ensures ParseLine(Format(ParseLine(line))) == ParseLine(line)
  {
    var p := ParseLine(line);
    var toks := Scan(Stage(line));
    ScanRenderable(Stage(line));
    assert forall i :: 0 <= i < |p.argv| ==> Renderable(p.argv[i]) by {
      forall i | 0 <= i < |p.argv|
        ensures Renderable(p.argv[i])
      {
        assert p.argv[i] == toks[i];
      }
    }
    if !p.bg {
      assert p.argv == toks;
    }
    ParseLineRoundTrip(p.argv, p.bg);
  }

  /** An unclosed quote drops the rest of the line: `echo 'a b` runs `echo`
      with no argument, in the foreground. */
  lemma ParseLineUnclosedQuoteExample()
    ensures ParseLine("echo 'a b\n") == Parsed(["echo"], false)
  {
    assert Stage("echo 'a b\n") == "echo" + [SPACE] + (Spaces(0) + [QUOTE] + "a b ");
    ScanWord("echo", Spaces(0) + [QUOTE] + "a b ");
    ScanUnterminatedQuote(0, "a b ");
  }
}
