/**
 * One connection's worker: reads the request lines, looks the path up in the
 * file store, and appends the response to its output stream.  The socket is
 * split into the request lines it delivers and the output it accumulates.
 */
module Worker {
  import opened Wrappers
  import opened JavaText
  import opened RequestReader
  import opened Http
  import opened Template

  /** The body of the 404 response. */
  const NotFoundBody: string := "404 Not Found"

  /**
   * Everything `run` writes for a request whose path is `path`, given the file
   * store, the server name and the date strings of the header and the body.
   * A `null` path throws at `new File(url)` and an existing file with an
   * unmapped extension takes no branch: both write nothing.
   */
  function Response(path: Option<string>, files: map<string, string>, serverName: string,
                    headerDate: string, bodyDate: string): string
  {
    match path
    case None => ""
    case Some(p) =>
      if p !in files then Header(Html.Name(), "404", headerDate) + NotFoundBody
      else match ContentTypeOf(p)
        case None => ""
        case Some(mt) =>
          Header(mt.Name(), "200", headerDate) +
          (if mt == Html then FillTemplate(files[p], bodyDate, serverName) else files[p])
  }

  class WebWorker {
    /** The files the worker can serve, by path relative to the working directory. */
    const files: map<string, string>
    /** The name the HTML template inserts for `<cs371server>`. */
    const serverName: string
    /** Everything written to the connection's output stream so far. */
    var output: string

    constructor (files: map<string, string>)
      ensures this.files == files && serverName == ServerName && output == ""
    {
      this.files := files;
      serverName := ServerName;
      output := "";
    }

    /**
     * Reads request lines until an empty line, the end of the input, or a
     * line the loop body throws on, recording the path of the first line
     * whose first token contains "GET".
     */
    method ReadHttpRequest(input: seq<string>) returns (requestedPath: Option<string>)
      ensures requestedPath == ReadRequest(input)
    {
      requestedPath := None;
      var i := 0;
      while true
        invariant 0 <= i <= |input|
        invariant ReadFrom(requestedPath, input[i..]) == ReadRequest(input)
        decreases |input| - i
      {
        if i == |input| {
          break;
        }
        var line := input[i];
        assert input[i..][0] == line && input[i..][1..] == input[i + 1..];
        i := i + 1;
        var requestLines := JavaSplit(line, ' ');
        if requestedPath.None? {
          if |requestLines| == 0 {
            break;
          }
          if Contains(requestLines[0], "GET") {
            if |requestLines| < 2 || |requestLines[1]| == 0 {
              break;
            }
            requestedPath := Some(requestLines[1][1..]);
          }
        }
        if |line| == 0 {
          break;
        }
      }
    }

    /** Writes the five header lines and the blank line, piece by piece. */
    method WriteHttpHeader(contentType: string, responseCode: string, date: string)
      modifies this`output
      ensures output == old(output) + Header(contentType, responseCode, date)
    {
      output := output + (StatusPrefix + responseCode + Newline);
      output := output + DatePrefix;
      output := output + date;
      output := output + Newline;
      output := output + (ServerLine + Newline);
      output := output + (ConnectionClose + Newline);
      output := output + ContentTypePrefix;
      output := output + contentType;
      output := output + (Newline + Newline);
      HeaderText(contentType, responseCode, date);
    }

    /** Writes the HTML file at `path` with both template tokens filled in. */
    method WriteHtmlContent(path: string, date: string)
      requires path in files
      modifies this`output
      ensures output == old(output) + FillTemplate(files[path], date, serverName)
    {
      var content := files[path];
      content := Replace(content, DateToken, date);
      content := Replace(content, ServerToken, serverName);
      output := output + content;
    }

    /** Copies the file at `path` to the output byte for byte. */
    method CopyFile(path: string)
      requires path in files
      modifies this`output
      ensures output == old(output) + files[path]
    {
      output := output + files[path];
    }

    /**
     * One branch of the extension chain: the 200 header with the type's name,
     * then the filled page for HTML or the file's bytes for an image.
     */
    method Send(p: string, mt: MediaType, headerDate: string, bodyDate: string)
      requires p in files && ContentTypeOf(p) == Some(mt)
      modifies this`output
      ensures output == old(output) + Response(Some(p), files, serverName, headerDate, bodyDate)
    {
      assert Response(Some(p), files, serverName, headerDate, bodyDate) ==
             Header(mt.Name(), "200", headerDate) +
             (if mt == Html then FillTemplate(files[p], bodyDate, serverName) else files[p]);
      WriteHttpHeader(mt.Name(), "200", headerDate);
      if mt == Html {
        WriteHtmlContent(p, bodyDate);
      } else {
        CopyFile(p);
      }
    }

    /** Serves an existing file by the content type its extension selects. */
    method ServeFile(p: string, headerDate: string, bodyDate: string)
      requires p in files
      modifies this`output
      ensures output == old(output) + Response(Some(p), files, serverName, headerDate, bodyDate)
    {
      if EndsWith(p, ".html") {
        Send(p, Html, headerDate, bodyDate);
      } else if EndsWith(p, ".jpg") || EndsWith(p, ".jpeg") {
        Send(p, Jpeg, headerDate, bodyDate);
      } else if EndsWith(p, ".png") {
        Send(p, Png, headerDate, bodyDate);
      } else if EndsWith(p, ".gif") {
        Send(p, Gif, headerDate, bodyDate);
      } else if EndsWith(p, ".ico") {
        Send(p, Icon, headerDate, bodyDate);
      }
    }

    /** Handles the connection: reads the request and writes the response. */
    method Run(input: seq<string>, headerDate: string, bodyDate: string)
      modifies this`output
      ensures output == old(output) + Response(ReadRequest(input), files, serverName, headerDate, bodyDate)
    {
      var url := ReadHttpRequest(input);
      if url.None? {
        // new File(null) throws before anything is written
        assert Response(url, files, serverName, headerDate, bodyDate) == "";
        return;
      }
      var p := url.value;
      if p in files {
        ServeFile(p, headerDate, bodyDate);
      } else {
        WriteHttpHeader("text/html", "404", headerDate);
        output := output + NotFoundBody;
      }
    }
  }

  /**
   * Nothing is written exactly when there is no path, or the file exists but
   * its extension is not in the table.
   */
  lemma NothingWritten(path: Option<string>, files: map<string, string>, serverName: string,
                       headerDate: string, bodyDate: string)
    ensures Response(path, files, serverName, headerDate, bodyDate) == "" <==>
            path.None? || (path.value in files && ContentTypeOf(path.value).None?)
  {
    if path.Some? && (path.value !in files || ContentTypeOf(path.value).Some?) {
      var r := Response(path, files, serverName, headerDate, bodyDate);
      assert r[0] == 'H';
    }
  }

  /** A missing file gets a 404 `text/html` header and the body `404 Not Found`. */
  lemma NotFoundResponse(p: string, files: map<string, string>, serverName: string,
                         headerDate: string, bodyDate: string)
    requires p !in files && '\n' !in headerDate
    ensures ParseMessage(Response(Some(p), files, serverName, headerDate, bodyDate)) ==
            Some(Message(HeaderLines("text/html", "404", headerDate), NotFoundBody))
  {
    ParseHeaderAndBody("text/html", "404", headerDate, NotFoundBody);
  }

  /**
   * An existing image gets a 200 header with the type of its extension,
   * followed by the file's contents unchanged.
   */
  lemma ImageResponse(p: string, files: map<string, string>, serverName: string,
                      headerDate: string, bodyDate: string, mt: MediaType)
    requires p in files && '\n' !in headerDate
    requires mt != Html
    requires exists i :: 0 <= i < |Extensions| && EndsWith(p, Extensions[i].0) && Extensions[i].1 == mt
    ensures ParseMessage(Response(Some(p), files, serverName, headerDate, bodyDate)) ==
            Some(Message(HeaderLines(mt.Name(), "200", headerDate), files[p]))
  {
    ContentTypeMatchesTable(p, mt);
    assert '\n' !in mt.Name();
    var body := files[p];
    assert Response(Some(p), files, serverName, headerDate, bodyDate) == Header(mt.Name(), "200", headerDate) + body;
    ParseHeaderAndBody(mt.Name(), "200", headerDate, body);
  }

  /**
   * An existing `.html` file gets a 200 `text/html` header followed by the
   * filled page, in which no token is left when both substitutes are safe.
   */
  lemma HtmlResponse(p: string, files: map<string, string>, serverName: string,
                     headerDate: string, bodyDate: string)
    requires p in files && EndsWith(p, ".html") && '\n' !in headerDate
    ensures ParseMessage(Response(Some(p), files, serverName, headerDate, bodyDate)) ==
            Some(Message(HeaderLines("text/html", "200", headerDate), FillTemplate(files[p], bodyDate, serverName)))
  {
    var body := FillTemplate(files[p], bodyDate, serverName);
    assert ContentTypeOf(p) == Some(Html);
    assert Response(Some(p), files, serverName, headerDate, bodyDate) == Header("text/html", "200", headerDate) + body;
    ParseHeaderAndBody("text/html", "200", headerDate, body);
  }

  /**
   * The body a client reads back for an existing `.html` file holds no
   * template token, when both substitutes are safe.
   */
  lemma HtmlBodyHasNoToken(p: string, files: map<string, string>, serverName: string,
                           headerDate: string, bodyDate: string)
    requires p in files && EndsWith(p, ".html") && '\n' !in headerDate
    requires SafeFill(bodyDate) && SafeFill(serverName)
    ensures ParseMessage(Response(Some(p), files, serverName, headerDate, bodyDate)).Some?
    ensures !Contains(ParseMessage(Response(Some(p), files, serverName, headerDate, bodyDate)).value.body, DateToken)
    ensures !Contains(ParseMessage(Response(Some(p), files, serverName, headerDate, bodyDate)).value.body, ServerToken)
  {
    HtmlResponse(p, files, serverName, headerDate, bodyDate);
    NoTokenSurvives(files[p], bodyDate, serverName);
  }

  /** The response to `index.html` holding `Hello <cs371server> on <cs371date>`. */
  lemma IndexPageResponse(files: map<string, string>, headerDate: string, bodyDate: string)
    requires "index.html" in files && files["index.html"] == "Hello <cs371server> on <cs371date>"
    requires '\n' !in headerDate && '<' !in bodyDate
    ensures ParseMessage(Response(Some("index.html"), files, ServerName, headerDate, bodyDate)) ==
            Some(Message(HeaderLines("text/html", "200", headerDate), "Hello Danya's Server on " + bodyDate))
  {
    var path := "index.html";
    assert EndsWith(path, ".html");
    HtmlResponse(path, files, ServerName, headerDate, bodyDate);
    HelloPage(files[path], bodyDate);
  }

  /**
   * `GET /index.html HTTP/1.1` against an `index.html` holding
   * `Hello <cs371server> on <cs371date>`: a 200 `text/html` response whose
   * body names the server and the date.
   */
  lemma IndexPageExchange(input: seq<string>, files: map<string, string>, headerDate: string, bodyDate: string)
    requires input == ["GET /index.html HTTP/1.1", ""]
    requires "index.html" in files && files["index.html"] == "Hello <cs371server> on <cs371date>"
    requires '\n' !in headerDate && '<' !in bodyDate
    ensures ParseMessage(Response(ReadRequest(input), files, ServerName, headerDate, bodyDate)) ==
            Some(Message(HeaderLines("text/html", "200", headerDate), "Hello Danya's Server on " + bodyDate))
  {
    var line := "GET /" + "index.html" + " HTTP/1.1";
    assert |input[0]| == |line|;
    assert forall i | 0 <= i < |line| :: input[0][i] == line[i];
    assert input[0] == line;
    assert input == [line, ""];
    GetRequestPath("index.html");
    IndexPageResponse(files, headerDate, bodyDate);
  }

  /** `GET /missing.html HTTP/1.1` with no such file: a 404 with body `404 Not Found`. */
  lemma MissingPageExchange(input: seq<string>, files: map<string, string>, headerDate: string, bodyDate: string)
    requires input == ["GET /missing.html HTTP/1.1", ""]
    requires "missing.html" !in files && '\n' !in headerDate
    ensures ParseMessage(Response(ReadRequest(input), files, ServerName, headerDate, bodyDate)) ==
            Some(Message(HeaderLines("text/html", "404", headerDate), "404 Not Found"))
  {
    var line := "GET /" + "missing.html" + " HTTP/1.1";
    assert |input[0]| == |line|;
    assert forall i | 0 <= i < |line| :: input[0][i] == line[i];
    assert input[0] == line;
    assert input == [line, ""];
    GetRequestPath("missing.html");
    NotFoundResponse("missing.html", files, ServerName, headerDate, bodyDate);
  }
}
