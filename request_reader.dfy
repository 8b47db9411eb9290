/**
 * The request-reading loop of the web worker (`readHTTPRequest`), as a
 * specification over the sequence of lines the client sends.  Running out of
 * lines stands for `readLine()` returning `null`.
 */
module RequestReader {
  import opened Wrappers
  import opened JavaText

  /** Outcome of one pass of the read loop: keep reading, or leave it. */
  datatype Step = Continue(path: Option<string>) | Stop(path: Option<string>)

  /** The space-separated tokens of a request line (`line.split(" ")`). */
  function Tokens(line: string): seq<string> {
    JavaSplit(line, ' ')
  }

  /**
   * Whether the loop body throws on `line` while no path is recorded yet:
   * indexing an empty token array, a missing second token, or
   * `substring(1)` of an empty second token.
   */
  predicate Throws(path: Option<string>, line: string) {
    var tokens := Tokens(line);
    path.None? &&
    (|tokens| == 0 || (Contains(tokens[0], "GET") && (|tokens| < 2 || |tokens[1]| == 0)))
  }

  /**
   * One pass of the loop on `line`: record the path if none is recorded and
   * the first token contains "GET", then stop on an empty line.  Once a path
   * is recorded the tokens are not inspected at all (the `&&` short-circuits).
   */
  function ReadStep(path: Option<string>, line: string): Step {
    var tokens := Tokens(line);
    if Throws(path, line) then Stop(path)
    else
      var next := if path.None? && Contains(tokens[0], "GET") then Some(tokens[1][1..]) else path;
      if |line| == 0 then Stop(next) else Continue(next)
  }

  /** The path the loop returns when it starts with `path` and reads `lines`. */
  function ReadFrom(path: Option<string>, lines: seq<string>): Option<string>
    decreases |lines|
  {
    if lines == [] then path
    else match ReadStep(path, lines[0])
      case Stop(p) => p
      case Continue(p) => ReadFrom(p, lines[1..])
  }

  /** The path `readHTTPRequest` returns for the request `lines`; `None` is `null`. */
  function ReadRequest(lines: seq<string>): Option<string> {
    ReadFrom(None, lines)
  }

  /** A line the loop reads past without recording anything while no path is set. */
  predicate Ignorable(line: string) {
    var tokens := Tokens(line);
    |line| > 0 && |tokens| > 0 && !Contains(tokens[0], "GET")
  }

  /** A line from which the loop records a path. */
  predicate GetLine(line: string) {
    var tokens := Tokens(line);
    |tokens| >= 2 && Contains(tokens[0], "GET") && |tokens[1]| > 0
  }

  /** The path recorded from a `GetLine`: its second token minus one character. */
  function PathOf(line: string): string
    requires GetLine(line)
  {
    Tokens(line)[1][1..]
  }

  /** A line on which the loop throws while no path is set. */
  predicate Malformed(line: string) {
    Throws(None, line)
  }

  /** Once a path is recorded, no later line replaces it. */
  lemma {:induction false} PathNeverOverwritten(p: string, lines: seq<string>)
    ensures ReadFrom(Some(p), lines) == Some(p)
    decreases |lines|
  {
    if lines != [] {
      PathNeverOverwritten(p, lines[1..]);
    }
  }

  /**
   * The first line whose first token contains "GET", after any number of
   * ignorable lines, supplies the path, whatever follows it.
   */
  lemma {:induction false} FirstGetLineWins(lines: seq<string>, k: nat)
    requires k < |lines| && GetLine(lines[k])
    requires forall j :: 0 <= j < k ==> Ignorable(lines[j])
    ensures ReadRequest(lines) == Some(PathOf(lines[k]))
    decreases k
  {
    var line := lines[0];
    if k == 0 {
      PathNeverOverwritten(PathOf(line), lines[1..]);
    } else {
      assert Ignorable(lines[0]);
      FirstGetLineWins(lines[1..], k - 1);
    }
  }

  /**
   * Conversely, a path is returned only when some line is a `GetLine` preceded
   * by ignorable lines only, and the path is that line's.
   */
  lemma {:induction false} ReturnedPathHasGetLine(lines: seq<string>, p: string)
    requires ReadRequest(lines) == Some(p)
    ensures exists k :: 0 <= k < |lines| && GetLine(lines[k]) && PathOf(lines[k]) == p &&
                        forall j :: 0 <= j < k ==> Ignorable(lines[j])
    decreases |lines|
  {
    var line := lines[0];
    var tokens := Tokens(line);
    if !Throws(None, line) && Contains(tokens[0], "GET") {
      PathNeverOverwritten(PathOf(line), lines[1..]);
      assert GetLine(lines[0]) && PathOf(lines[0]) == p;
    } else {
      assert Ignorable(line);
      ReturnedPathHasGetLine(lines[1..], p);
      var k :| 0 <= k < |lines[1..]| && GetLine(lines[1..][k]) && PathOf(lines[1..][k]) == p &&
               forall j :: 0 <= j < k ==> Ignorable(lines[1..][j]);
      assert GetLine(lines[k + 1]);
      assert forall j :: 0 <= j < k + 1 ==> Ignorable(lines[j]) by {
        forall j | 0 <= j < k + 1 ensures Ignorable(lines[j]) {
          if j > 0 {
            assert lines[j] == lines[1..][j - 1];
          }
        }
      }
    }
  }

  /** Reading ends at the first empty line: nothing after it has any effect. */
  lemma {:induction false} StopsAtEmptyLine(path: Option<string>, pre: seq<string>, rest: seq<string>)
    requires "" in pre
    ensures ReadFrom(path, pre + rest) == ReadFrom(path, pre)
    decreases |pre|
  {
    assert (pre + rest)[0] == pre[0];
    if pre[0] != "" {
      assert (pre + rest)[1..] == pre[1..] + rest;
      match ReadStep(path, pre[0])
      case Stop(p) =>
      case Continue(p) => StopsAtEmptyLine(p, pre[1..], rest);
    }
  }

  /**
   * A line on which the loop throws, reached before any path is recorded,
   * ends reading with no path, whatever follows it.
   */
  lemma {:induction false} MalformedLineStops(lines: seq<string>, k: nat)
    requires k < |lines| && Malformed(lines[k])
    requires forall j :: 0 <= j < k ==> Ignorable(lines[j])
    ensures ReadRequest(lines) == None
    decreases k
  {
    if k > 0 {
      assert Ignorable(lines[0]);
      MalformedLineStops(lines[1..], k - 1);
    }
  }

  /** Input that ends before any line supplies a path gives no path. */
  lemma {:induction false} EndOfInputWithoutPath(lines: seq<string>)
    requires forall j :: 0 <= j < |lines| ==> Ignorable(lines[j])
    ensures ReadRequest(lines) == None
    decreases |lines|
  {
    if lines != [] {
      assert Ignorable(lines[0]);
      EndOfInputWithoutPath(lines[1..]);
    }
  }

  /**
   * A request line `m + " " + c + name + " " + v` whose method token contains
   * "GET" yields `name`: exactly one leading character of the second token
   * is removed, whatever it is.
   */
  lemma RequestLinePath(m: string, c: char, name: string, v: string, rest: seq<string>)
    requires Contains(m, "GET") && ' ' !in m
    requires c != ' ' && ' ' !in name
    requires v != "" && ' ' !in v
    ensures ReadRequest([m + " " + [c] + name + " " + v] + rest) == Some(name)
  {
    var line := m + " " + [c] + name + " " + v;
    var ps := [m, [c] + name, v];
    assert ps[1..] == [[c] + name, v] && ps[1..][1..] == [v];
    assert Join(ps[1..], ' ') == [c] + name + " " + v;
    assert Join(ps, ' ') == line;
    JavaSplitJoin(ps, ' ');
    assert GetLine(line) && PathOf(line) == name;
    FirstGetLineWins([line] + rest, 0);
  }

  /** `GET /<name> HTTP/1.1` followed by the blank line gives `<name>`. */
  lemma GetRequestPath(name: string)
    requires ' ' !in name
    ensures ReadRequest(["GET /" + name + " HTTP/1.1", ""]) == Some(name)
  {
    assert "GET /" + name + " HTTP/1.1" == "GET" + " " + ['/'] + name + " " + "HTTP/1.1";
    assert "GET" <= "GET";
    RequestLinePath("GET", '/', name, "HTTP/1.1", [""]);
  }
}
