/** The command line of `gethosts`: the optional argument `[prefix@]pattern`,
    the prefix filter over the host lines, and what the program prints. */
module Cli {
  import opened Wrappers
  import opened GoStrings
  import opened Hosts
  import opened Cache

  /** The argument cut at its first `@`: the display prefix keeps the `@`. */
  datatype Query = Query(prefix: string, pattern: string)

  /** What the process does: print these lines with `fmt.Fprintln`, or exit
      through `log.Fatal`. */
  datatype Exit = Printed(lines: seq<string>) | Fatal

  /** `q` cuts `arg` in two, and the cut is right after the first `@`, or at the
      very start when there is no `@`. */
  predicate IsFirstAtCut(arg: string, q: Query) {
    && q.prefix + q.pattern == arg
    && if q.prefix == "" then '@' !in arg
       else q.prefix[|q.prefix| - 1] == '@' && '@' !in q.prefix[..|q.prefix| - 1]
  }

  /** Lines 178-184 of `main`. */
  function ParseArg(arg: string): (q: Query)
    ensures IsFirstAtCut(arg, q)
  {
    var i := IndexOf(arg, '@');
    if i == -1 then Query("", arg)
    else
      assert arg[..i + 1][..i] == arg[..i];
      assert arg[..i + 1] + arg[i + 1..] == arg;
      Query(arg[..i + 1], arg[i + 1..])
  }

  /** There is only one such cut, so `ParseArg` is characterised by it. */
  lemma ParseArgUnique(arg: string, q: Query)
    requires IsFirstAtCut(arg, q)
    ensures ParseArg(arg) == q
  {
    if q.prefix != "" {
      var i := |q.prefix| - 1;
      assert arg[..i] == q.prefix[..i];
      IndexOfFirst(arg, '@', i);
      assert arg[..i + 1] == q.prefix;
      assert arg[i + 1..] == q.pattern;
    }
  }

  /** The lines that start with `pattern`, in their original order. */
  function Matching(lines: seq<string>, pattern: string): (m: seq<string>)
    ensures |m| <= |lines|
    ensures forall l :: l in m <==> l in lines && HasPrefix(l, pattern)
  {
    if |lines| == 0 then []
    else
      var rest := Matching(lines[1..], pattern);
      assert forall l :: l in lines <==> l == lines[0] || l in lines[1..];
      if HasPrefix(lines[0], pattern) then [lines[0]] + rest else rest
  }

  /** Filtering distributes over concatenation; with the one-line cases this
      pins down both which lines are kept and their order. */
  lemma {:induction false} MatchingAppend(a: seq<string>, b: seq<string>, pattern: string)
    ensures Matching(a + b, pattern) == Matching(a, pattern) + Matching(b, pattern)
  {
    if |a| == 0 {
      assert a + b == b;
    } else {
      assert (a + b)[0] == a[0];
      assert (a + b)[1..] == a[1..] + b;
      MatchingAppend(a[1..], b, pattern);
    }
  }

  /** Every line starts with the empty pattern, so nothing is dropped. */
  lemma {:induction false} MatchingEmptyPattern(lines: seq<string>)
    ensures Matching(lines, "") == lines
  {
    if |lines| > 0 {
      assert HasPrefix(lines[0], "");
      MatchingEmptyPattern(lines[1..]);
    }
  }

  /** Each line with the display prefix in front. */
  function Prefixed(prefix: string, lines: seq<string>): (out: seq<string>)
    ensures |out| == |lines|
    ensures forall k :: 0 <= k < |lines| ==> out[k] == prefix + lines[k]
  {
    seq(|lines|, k requires 0 <= k < |lines| => prefix + lines[k])
  }

  /** A line is printed exactly when the line behind the prefix was kept. */
  lemma PrefixedMember(prefix: string, lines: seq<string>, l: string)
    ensures prefix + l in Prefixed(prefix, lines) <==> l in lines
  {
    var out := Prefixed(prefix, lines);
    if prefix + l in out {
      var k :| 0 <= k < |out| && out[k] == prefix + l;
      assert (prefix + l)[|prefix|..] == l;
      assert (prefix + lines[k])[|prefix|..] == lines[k];
    }
    if l in lines {
      var k :| 0 <= k < |lines| && lines[k] == l;
      assert out[k] == prefix + l;
    }
  }

  /** One more input line prints one more prefixed line exactly when it matches. */
  lemma PrintStep(prefix: string, pattern: string, done: seq<string>, line: string)
    ensures Prefixed(prefix, Matching(done + [line], pattern))
            == Prefixed(prefix, Matching(done, pattern))
               + (if HasPrefix(line, pattern) then [prefix + line] else [])
  {
    MatchingAppend(done, [line], pattern);
    var kept := Matching([line], pattern);
    assert kept == if HasPrefix(line, pattern) then [line] else [];
    PrefixedAppend(prefix, Matching(done, pattern), kept);
  }

  /** The loop of lines 196-200: print `prefix + line` for each matching line. */
  method PrintMatching(hostArr: seq<string>, prefix: string, pattern: string) returns (out: seq<string>)
    ensures out == Prefixed(prefix, Matching(hostArr, pattern))
  {
    out := [];
    var i := 0;
    while i < |hostArr|
      invariant 0 <= i <= |hostArr|
      invariant out == Prefixed(prefix, Matching(hostArr[..i], pattern))
    {
      var line := hostArr[i];
      assert hostArr[..i + 1] == hostArr[..i] + [line];
      PrintStep(prefix, pattern, hostArr[..i], line);
      if HasPrefix(line, pattern) {
        out := out + [prefix + line];
      }
      i := i + 1;
    }
    assert hostArr[..i] == hostArr;
  }

  /** Putting the same string in front keeps a prefix relation. */
  lemma PrefixKeepsPrefix(prefix: string, pattern: string, line: string)
    requires HasPrefix(line, pattern)
    ensures HasPrefix(prefix + line, prefix + pattern)
  {
    assert (prefix + line)[..|prefix + pattern|] == prefix + line[..|pattern|];
  }

  /** What `main` prints once `getHosts` has answered. */
  function Output(args: seq<string>, hosts: Result<string, Error>): (e: Exit)
    ensures e.Fatal? <==> hosts.Failure?
    ensures hosts.Success? && |args| == 0 ==> e.lines == [hosts.value]
    ensures hosts.Success? && |args| > 0 ==>
              var q := ParseArg(args[0]);
              && |e.lines| <= |Split(hosts.value, '\n')|
              && (forall k :: 0 <= k < |e.lines| ==> HasPrefix(e.lines[k], args[0]))
              && forall l :: q.prefix + l in e.lines <==>
                               l in Split(hosts.value, '\n') && HasPrefix(l, q.pattern)
  {
    match hosts
    case Failure(_) => Fatal
    case Success(text) =>
      if |args| == 0 then Printed([text])
      else
        var q := ParseArg(args[0]);
        var m := Matching(Split(text, '\n'), q.pattern);
        forall k | 0 <= k < |m|
          ensures HasPrefix(q.prefix + m[k], args[0])
        {
          assert m[k] in m;
          PrefixKeepsPrefix(q.prefix, q.pattern, m[k]);
        }
        var out := Prefixed(q.prefix, m);
        assert forall l :: q.prefix + l in out <==> l in m by {
          forall l
            ensures q.prefix + l in out <==> l in m
          {
            PrefixedMember(q.prefix, m, l);
          }
        }
        Printed(out)
  }

  /** The whole program after flag parsing: fetch the host list, then print. */
  function Main(args: seq<string>, cacheDuration: int, w: World): (e: Exit)
    ensures e.Fatal? <==> !CacheHit(cacheDuration, w) && DownloadParseHosts(w.download, w.parse).Failure?
    ensures CacheHit(cacheDuration, w) && |args| == 0 ==> e == Printed([w.read.content])
  {
    Output(args, GetHosts(cacheDuration, w).result)
  }

  /** Prefixing distributes over concatenation of the lines. */
  lemma PrefixedAppend(prefix: string, a: seq<string>, b: seq<string>)
    ensures Prefixed(prefix, a + b) == Prefixed(prefix, a) + Prefixed(prefix, b)
  {
  }

  /** With one argument, `main` prints the prefixed lines of the split text that
      start with the pattern, in order. */
  lemma OutputOfLines(arg: string, q: Query, text: string)
    requires IsFirstAtCut(arg, q)
    ensures Output([arg], Success(text))
            == Printed(Prefixed(q.prefix, Matching(Split(text, '\n'), q.pattern)))
  {
    ParseArgUnique(arg, q);
  }

  /** The lines of a formatted line-safe list that start with the pattern: the
      matching names, and then the empty piece after the final newline when the
      pattern is empty. */
  lemma MatchingFormatted(results: seq<HostRecord>, pattern: string)
    requires LineSafe(Names(results))
    ensures Matching(Split(Format(results), '\n'), pattern)
            == Matching(Names(results), pattern) + (if pattern == "" then [""] else [])
  {
    FormatSplit(results);
    MatchingAppend(Names(results), [""], pattern);
    assert HasPrefix("", pattern) <==> pattern == "";
  }

  /** The printed lines for a formatted line-safe list: the prefixed matching
      names, and then the bare prefix when the pattern is empty. */
  lemma PrefixedFormatted(prefix: string, results: seq<HostRecord>, pattern: string)
    requires LineSafe(Names(results))
    ensures Prefixed(prefix, Matching(Split(Format(results), '\n'), pattern))
            == Prefixed(prefix, Matching(Names(results), pattern))
               + (if pattern == "" then [prefix] else [])
  {
    MatchingFormatted(results, pattern);
    var last: seq<string> := if pattern == "" then [""] else [];
    PrefixedAppend(prefix, Matching(Names(results), pattern), last);
    if pattern == "" {
      assert Prefixed(prefix, last)[0] == prefix + "" == prefix;
    }
  }

  /** Filtering the freshly formatted host list: the matching names, prefixed,
      in list order, followed by a line holding only the prefix when the pattern
      is empty, since the empty pattern also matches the piece after the final
      newline. */
  lemma OutputOfFormatted(arg: string, q: Query, results: seq<HostRecord>)
    requires IsFirstAtCut(arg, q)
    requires LineSafe(Names(results))
    ensures Output([arg], Success(Format(results)))
            == Printed(Prefixed(q.prefix, Matching(Names(results), q.pattern))
                       + (if q.pattern == "" then [q.prefix] else []))
  {
    OutputOfLines(arg, q, Format(results));
    PrefixedFormatted(q.prefix, results, q.pattern);
  }

  /** Of `alpha`, `beta` and `alphabet`, the lines starting with `alpha` are the
      first and the last, in that order; prefixed with `P@` they read `P@alpha`
      and `P@alphabet`. */
  lemma MatchingExample()
    ensures Prefixed("P@", Matching(["alpha", "beta", "alphabet"], "alpha"))
            == ["P@alpha", "P@alphabet"]
  {
    assert HasPrefix("alpha", "alpha");
    assert !HasPrefix("beta", "alpha");
    assert HasPrefix("alphabet", "alpha");
    assert Matching(["alpha", "beta", "alphabet"], "alpha") == ["alpha", "alphabet"];
    var p := Prefixed("P@", ["alpha", "alphabet"]);
    assert p[0] == "P@" + "alpha" == "P@alpha";
    assert p[1] == "P@" + "alphabet" == "P@alphabet";
  }

  /** The example host names hold no newline. */
  lemma ExampleNamesLineSafe()
    ensures LineSafe(["alpha", "beta", "alphabet"])
    ensures LineSafe(["web1"])
  {
    var names := ["alpha", "beta", "alphabet"];
    assert '\n' !in names[0] && '\n' !in names[1] && '\n' !in names[2];
  }

  /** `P@alpha` is cut right after its `@`. */
  lemma CutExample()
    ensures IsFirstAtCut("P@alpha", Query("P@", "alpha"))
    ensures ParseArg("P@alpha") == Query("P@", "alpha")
  {
    ParseArgUnique("P@alpha", Query("P@", "alpha"));
  }

  /** The filter on a three-host list: `P@alpha` cuts into the display prefix
      `P@` and the pattern `alpha`; the lines starting with `alpha` are kept in
      order, and the display prefix keeps its `@`. */
  lemma FilterExample(results: seq<HostRecord>)
    requires Names(results) == ["alpha", "beta", "alphabet"]
    ensures ParseArg("P@alpha") == Query("P@", "alpha")
    ensures Output(["P@alpha"], Success(Format(results))) == Printed(["P@alpha", "P@alphabet"])
  {
    CutExample();
    ExampleNamesLineSafe();
    OutputOfFormatted("P@alpha", Query("P@", "alpha"), results);
    MatchingExample();
  }

  /** As written, an argument whose pattern is empty (one ending in `@`, or the
      empty argument) prints every host with the prefix and then one more line
      that is the bare prefix, which names no host. */
  lemma EmptyPatternPrintsBarePrefix(arg: string, results: seq<HostRecord>)
    requires LineSafe(Names(results))
    requires ParseArg(arg).pattern == ""
    ensures var lines := Output([arg], Success(Format(results))).lines;
            && lines == Prefixed(ParseArg(arg).prefix, Names(results)) + [ParseArg(arg).prefix]
            && |lines| == |results| + 1
  {
    OutputOfFormatted(arg, ParseArg(arg), results);
    MatchingEmptyPattern(Names(results));
  }

  /** The lines `gethosts root@` prints for the one-host list `web1`: the pieces
      `web1` and the empty one after the final newline both pass the empty
      pattern, and print as `root@web1` and a bare `root@`. */
  lemma BarePrefixExample()
    ensures Prefixed("root@", Matching(["web1"], "")) + ["root@"] == ["root@web1", "root@"]
    ensures Prefixed("root@", Matching(["web1", ""], "")) == ["root@web1", "root@"]
  {
    assert HasPrefix("web1", "");
    assert Matching(["web1"], "") == ["web1"];
    assert Prefixed("root@", ["web1"])[0] == "root@" + "web1" == "root@web1";
    MatchingEmptyPattern(["web1", ""]);
    var p := Prefixed("root@", ["web1", ""]);
    assert p[0] == "root@" + "web1" == "root@web1";
    assert p[1] == "root@" + "" == "root@";
  }

  /** The smallest instance: `gethosts root@` on the one-host list `web1`
      prints a second line `root@`. */
  lemma TrailingPrefixLine(results: seq<HostRecord>)
    requires Names(results) == ["web1"]
    ensures ParseArg("root@") == Query("root@", "")
    ensures Output(["root@"], Success(Format(results))) == Printed(["root@web1", "root@"])
  {
    ParseArgUnique("root@", Query("root@", ""));
    ExampleNamesLineSafe();
    OutputOfFormatted("root@", Query("root@", ""), results);
    BarePrefixExample();
  }

  /** The pieces without their last one when that one is empty. */
  function DropTrailingEmpty(parts: seq<string>): (lines: seq<string>)
    requires |parts| > 0
    ensures parts[|parts| - 1] == "" ==> parts == lines + [""]
    ensures parts[|parts| - 1] != "" ==> lines == parts
  {
    if parts[|parts| - 1] == "" then
      assert parts == parts[..|parts| - 1] + [""];
      parts[..|parts| - 1]
    else parts
  }

  /** The host lines of a text: its pieces between newlines, without the empty
      piece that follows a final newline. */
  function HostLines(text: string): (lines: seq<string>)
    ensures forall k :: 0 <= k < |lines| ==> '\n' !in lines[k]
    ensures var parts := Split(text, '\n');
            && (parts[|parts| - 1] == "" ==> parts == lines + [""])
            && (parts[|parts| - 1] != "" ==> parts == lines)
  {
    DropTrailingEmpty(Split(text, '\n'))
  }

  /** A last empty part is what `DropTrailingEmpty` drops, and the only thing. */
  lemma DropTrailingEmptyIff(parts: seq<string>)
    requires |parts| > 0
    ensures parts[|parts| - 1] == "" <==> parts == DropTrailingEmpty(parts) + [""]
  {
    var lines := DropTrailingEmpty(parts);
    if parts[|parts| - 1] != "" {
      assert |lines + [""]| == |parts| + 1;
    }
  }

  /** Exactly the empty piece after a final newline, or of the empty text, is
      dropped; otherwise the host lines are all the pieces. */
  lemma HostLinesSplit(text: string)
    ensures text == "" || text[|text| - 1] == '\n' <==> Split(text, '\n') == HostLines(text) + [""]
    ensures !(text == "" || text[|text| - 1] == '\n') ==> Split(text, '\n') == HostLines(text)
  {
    var parts := Split(text, '\n');
    SplitLast(text, '\n');
    DropTrailingEmptyIff(parts);
    assert HostLines(text) == DropTrailingEmpty(parts);
  }

  /** Joining the host lines with newlines gives the text back, with a final
      newline exactly when the text had one (or was empty). */
  lemma HostLinesJoin(text: string)
    ensures text == "" || text[|text| - 1] == '\n' ==> Join(HostLines(text) + [""], '\n') == text
    ensures !(text == "" || text[|text| - 1] == '\n') ==> Join(HostLines(text), '\n') == text
  {
    HostLinesSplit(text);
    JoinSplit(text, '\n');
  }

  /** Reading host lines is the inverse of formatting a line-safe list. */
  lemma HostLinesOfFormat(results: seq<HostRecord>)
    requires LineSafe(Names(results))
    ensures HostLines(Format(results)) == Names(results)
  {
    FormatSplit(results);
    var parts := Names(results) + [""];
    assert parts[..|parts| - 1] == Names(results);
  }

  /** `Output` with the filter run over the host lines only. */
  function OutputIntended(args: seq<string>, hosts: Result<string, Error>): (e: Exit)
    ensures e.Fatal? <==> hosts.Failure?
    ensures hosts.Success? && |args| == 0 ==> e.lines == [hosts.value]
    ensures hosts.Success? && |args| > 0 ==>
              var q := ParseArg(args[0]);
              && |e.lines| <= |HostLines(hosts.value)|
              && forall l :: q.prefix + l in e.lines <==>
                               l in HostLines(hosts.value) && HasPrefix(l, q.pattern)
  {
    match hosts
    case Failure(_) => Fatal
    case Success(text) =>
      if |args| == 0 then Printed([text])
      else
        var q := ParseArg(args[0]);
        var m := Matching(HostLines(text), q.pattern);
        var out := Prefixed(q.prefix, m);
        assert forall l :: q.prefix + l in out <==> l in m by {
          forall l
            ensures q.prefix + l in out <==> l in m
          {
            PrefixedMember(q.prefix, m, l);
          }
        }
        Printed(out)
  }

  /** With the corrected filter every printed line is a listed host: exactly the
      matching names, prefixed, in list order, whatever the pattern. */
  lemma IntendedOutputOfFormatted(arg: string, results: seq<HostRecord>)
    requires LineSafe(Names(results))
    ensures var q := ParseArg(arg);
            OutputIntended([arg], Success(Format(results))).lines
              == Prefixed(q.prefix, Matching(Names(results), q.pattern))
    ensures ParseArg(arg).pattern == "" ==>
              |OutputIntended([arg], Success(Format(results))).lines| == |results|
  {
    HostLinesOfFormat(results);
    if ParseArg(arg).pattern == "" {
      MatchingEmptyPattern(Names(results));
    }
  }
}
