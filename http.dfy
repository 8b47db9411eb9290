/**
 * The HTTP side of the web worker: the content type chosen from the path's
 * extension in `run`, the header block of `writeHTTPHeader`, and the way a
 * client separates that header block from the body.
 */
module Http {
  import opened Wrappers
  import opened JavaText

  /** The content types the worker serves. */
  datatype MediaType = Html | Jpeg | Png | Gif | Icon {
    /** The `Content-Type` value written for this type. */
    function Name(): string {
      match this
      case Html => "text/html"
      case Jpeg => "image/jpeg"
      case Png => "image/png"
      case Gif => "image/gif"
      case Icon => "image/x-icon"
    }
  }

  /** The case-sensitive `endsWith` chain of `run`, in the order it is tested. */
  function ContentTypeOf(path: string): Option<MediaType> {
    if EndsWith(path, ".html") then Some(Html)
    else if EndsWith(path, ".jpg") || EndsWith(path, ".jpeg") then Some(Jpeg)
    else if EndsWith(path, ".png") then Some(Png)
    else if EndsWith(path, ".gif") then Some(Gif)
    else if EndsWith(path, ".ico") then Some(Icon)
    else None
  }

  /** The extension table, one entry per recognised suffix. */
  const Extensions: seq<(string, MediaType)> :=
    [(".html", Html), (".jpg", Jpeg), (".jpeg", Jpeg), (".png", Png), (".gif", Gif), (".ico", Icon)]

  lemma EndsWithLastTwo(path: string, e: string)
    requires |e| >= 2 && EndsWith(path, e)
    ensures path[|path| - 1] == e[|e| - 1] && path[|path| - 2] == e[|e| - 2]
  {
    assert path[|path| - |e|..][|e| - 1] == path[|path| - 1];
    assert path[|path| - |e|..][|e| - 2] == path[|path| - 2];
  }

  /** No path ends with two different extensions of the table. */
  lemma ExtensionsExclusive(path: string, i: nat, j: nat)
    requires i < |Extensions| && j < |Extensions|
    requires EndsWith(path, Extensions[i].0) && EndsWith(path, Extensions[j].0)
    ensures i == j
  {
    EndsWithLastTwo(path, Extensions[i].0);
    EndsWithLastTwo(path, Extensions[j].0);
  }

  /**
   * The chain agrees with the table: a path gets type `mt` exactly when it
   * ends with an extension the table maps to `mt`, so the order of the tests
   * does not matter.
   */
  lemma ContentTypeMatchesTable(path: string, mt: MediaType)
    ensures ContentTypeOf(path) == Some(mt) <==>
            exists i :: 0 <= i < |Extensions| && EndsWith(path, Extensions[i].0) && Extensions[i].1 == mt
  {
    if exists i :: 0 <= i < |Extensions| && EndsWith(path, Extensions[i].0) && Extensions[i].1 == mt {
      var i :| 0 <= i < |Extensions| && EndsWith(path, Extensions[i].0) && Extensions[i].1 == mt;
      forall j: nat | j < |Extensions| && EndsWith(path, Extensions[j].0) ensures j == i {
        ExtensionsExclusive(path, i, j);
      }
      assert EndsWith(path, ".html") ==> i == 0 by { assert Extensions[0].0 == ".html"; }
      assert EndsWith(path, ".jpg") ==> i == 1 by { assert Extensions[1].0 == ".jpg"; }
      assert EndsWith(path, ".jpeg") ==> i == 2 by { assert Extensions[2].0 == ".jpeg"; }
      assert EndsWith(path, ".png") ==> i == 3 by { assert Extensions[3].0 == ".png"; }
      assert EndsWith(path, ".gif") ==> i == 4 by { assert Extensions[4].0 == ".gif"; }
    }
    if ContentTypeOf(path) == Some(mt) {
      var i := if EndsWith(path, ".html") then 0
               else if EndsWith(path, ".jpg") then 1
               else if EndsWith(path, ".jpeg") then 2
               else if EndsWith(path, ".png") then 3
               else if EndsWith(path, ".gif") then 4
               else 5;
      assert EndsWith(path, Extensions[i].0) && Extensions[i].1 == mt;
    }
  }

  /** A path with none of the table's extensions gets no content type. */
  lemma UnmappedExtension(path: string)
    ensures ContentTypeOf(path) == None <==>
            forall i :: 0 <= i < |Extensions| ==> !EndsWith(path, Extensions[i].0)
  {
    if ContentTypeOf(path) != None {
      ContentTypeMatchesTable(path, ContentTypeOf(path).value);
    }
  }

  const StatusPrefix: string := "HTTP/1.1 "
  const DatePrefix: string := "Date: "
  /** The `Server` line: a literal, unrelated to the worker's `serverName`. */
  const ServerLine: string := "Server: Jon's very own server"
  const ConnectionClose: string := "Connection: close"
  const ContentTypePrefix: string := "Content-Type: "
  const Newline: string := "\n"

  /** The five lines `writeHTTPHeader` writes, in order. */
  function HeaderLines(contentType: string, code: string, date: string): seq<string> {
    [StatusPrefix + code, DatePrefix + date, ServerLine, ConnectionClose, ContentTypePrefix + contentType]
  }

  /** Each line followed by a newline. */
  function Terminated(ls: seq<string>): string {
    if ls == [] then "" else ls[0] + Newline + Terminated(ls[1..])
  }

  /** Everything `writeHTTPHeader` writes: the five lines and a blank line, each ended by a newline. */
  function Header(contentType: string, code: string, date: string): string {
    Terminated(HeaderLines(contentType, code, date) + [""])
  }

  /** A response as a client reads it: header lines, then the body. */
  datatype Message = Message(head: seq<string>, body: string)

  /**
   * How a client that reads to connection close splits a response: the lines
   * before the first blank line form the head, everything after that blank
   * line is the body.  `None` when no blank line ends a head.
   */
  function ParseMessage(out: string): Option<Message> {
    var ps := Pieces(out, '\n');
    var terminated := ps[..|ps| - 1];
    if "" !in terminated then None
    else
      var k := FirstIndex(terminated, "");
      Some(Message(ps[..k], Join(ps[k + 1..], '\n')))
  }

  /** Newline-terminated lines come back as the first pieces of the text. */
  lemma {:induction false} PiecesOfTerminated(ls: seq<string>, rest: string)
    requires forall i :: 0 <= i < |ls| ==> '\n' !in ls[i]
    ensures Pieces(Terminated(ls) + rest, '\n') == ls + Pieces(rest, '\n')
    decreases |ls|
  {
    if ls == [] {
      assert Terminated(ls) + rest == rest;
    } else {
      var t := Terminated(ls[1..]) + rest;
      assert Terminated(ls) + rest == ls[0] + ['\n'] + t by { assert Newline == ['\n']; }
      calc {
        Pieces(Terminated(ls) + rest, '\n');
        Pieces(ls[0] + ['\n'] + t, '\n');
        { PiecesCons(ls[0], '\n', t); }
        [ls[0]] + Pieces(t, '\n');
        { PiecesOfTerminated(ls[1..], rest); }
        [ls[0]] + (ls[1..] + Pieces(rest, '\n'));
        { assert ls == [ls[0]] + ls[1..]; }
        ls + Pieces(rest, '\n');
      }
    }
  }

  /** Unfolds `Terminated` once. */
  lemma TerminatedStep(ls: seq<string>, i: nat)
    requires i < |ls|
    ensures Terminated(ls[i..]) == ls[i] + Newline + Terminated(ls[i + 1..])
  {
    assert ls[i..][1..] == ls[i + 1..];
  }

  /** The header text, in the order `writeHTTPHeader` writes its pieces. */
  lemma HeaderText(contentType: string, code: string, date: string)
    ensures Header(contentType, code, date) ==
            (StatusPrefix + code + Newline) + DatePrefix + date + Newline + (ServerLine + Newline) +
            (ConnectionClose + Newline) + ContentTypePrefix + contentType + (Newline + Newline)
  {
    var ls := HeaderLines(contentType, code, date) + [""];
    var p1, p2, p3, p4 := StatusPrefix + code + Newline, DatePrefix, date, Newline;
    var p5, p6, p7, p8, p9 := ServerLine + Newline, ConnectionClose + Newline, ContentTypePrefix, contentType, Newline + Newline;
    assert ls[6..] == [];
    TerminatedStep(ls, 5);
    TerminatedStep(ls, 4);
    assert Terminated(ls[4..]) == p7 + p8 + p9;
    TerminatedStep(ls, 3);
    assert Terminated(ls[3..]) == p6 + (p7 + p8 + p9);
    TerminatedStep(ls, 2);
    assert Terminated(ls[2..]) == p5 + (p6 + (p7 + p8 + p9));
    TerminatedStep(ls, 1);
    assert Terminated(ls[1..]) == p2 + p3 + p4 + (p5 + (p6 + (p7 + p8 + p9)));
    TerminatedStep(ls, 0);
    assert ls[0..] == ls;
    assert Terminated(ls) == p1 + (p2 + p3 + p4 + (p5 + (p6 + (p7 + p8 + p9))));
  }

  /** The header block is the five header lines, one blank line, then the body's own lines. */
  lemma HeaderPieces(contentType: string, code: string, date: string, body: string)
    requires '\n' !in contentType && '\n' !in code && '\n' !in date
    ensures Pieces(Header(contentType, code, date) + body, '\n') ==
            HeaderLines(contentType, code, date) + [""] + Pieces(body, '\n')
  {
    var ls := HeaderLines(contentType, code, date) + [""];
    assert '\n' !in StatusPrefix + code && '\n' !in DatePrefix + date && '\n' !in ServerLine;
    assert '\n' !in ConnectionClose && '\n' !in ContentTypePrefix + contentType;
    assert forall i :: 0 <= i < |ls| ==> '\n' !in ls[i];
    PiecesOfTerminated(ls, body);
  }

  /**
   * What the header promises: it starts with the status line, has exactly
   * one `Connection: close` line, no `Content-Length` line, and no blank line
   * before the one that ends it.
   */
  lemma HeaderShape(contentType: string, code: string, date: string)
    ensures HeaderLines(contentType, code, date)[0] == "HTTP/1.1 " + code
    ensures multiset(HeaderLines(contentType, code, date))["Connection: close"] == 1
    ensures forall i :: 0 <= i < 5 ==> !("Content-Length" <= HeaderLines(contentType, code, date)[i])
    ensures "" !in HeaderLines(contentType, code, date)
  {
    var ls := HeaderLines(contentType, code, date);
    assert ls[0][0] == 'H' && ls[1][0] == 'D' && ls[2][0] == 'S' && ls[3][3] == 'n' && ls[4][3] == 't' && ls[4][8] == 'T';
    forall i | 0 <= i < 5 ensures !("Content-Length" <= ls[i]) {
      assert "Content-Length"[0] == 'C' && "Content-Length"[3] == 't' && "Content-Length"[8] == 'L';
    }
    assert ls == [ls[0], ls[1], ls[2]] + [ls[3]] + [ls[4]];
  }

  /** A client reading a response recovers exactly the header lines and the body. */
  lemma ParseHeaderAndBody(contentType: string, code: string, date: string, body: string)
    requires '\n' !in contentType && '\n' !in code && '\n' !in date
    ensures ParseMessage(Header(contentType, code, date) + body) ==
            Some(Message(HeaderLines(contentType, code, date), body))
  {
    var ls := HeaderLines(contentType, code, date);
    var ps := Pieces(Header(contentType, code, date) + body, '\n');
    HeaderPieces(contentType, code, date, body);
    HeaderShape(contentType, code, date);
    var terminated := ps[..|ps| - 1];
    assert terminated[5] == "";
    var k := FirstIndex(terminated, "");
    assert ps[..5] == ls && ps[6..] == Pieces(body, '\n');
    JoinPieces(body, '\n');
  }
}
