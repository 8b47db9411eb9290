# WebWorker: one HTTP connection, verified

This project models the per-connection responder of a small Java web server
(`WebWorker.java`). A worker reads the lines of one HTTP request. It takes the
requested path from the first line whose first space-separated token contains
`GET`. It then looks the path up among the files it can serve and writes a
response to its output stream:

- a `404` header and the body `404 Not Found` when the file does not exist;
- a `200` header and the file's bytes when the file is a `.jpg`/`.jpeg`,
  `.png`, `.gif` or `.ico` image;
- a `200` header and the page with its two template tokens filled in when the
  file is `.html`;
- nothing at all when the file has any other extension, or when no path was
  read.

Modules, one per part of the worker:

- `Wrappers`: `Option`, standing for a Java reference that may be `null`.
- `JavaText`: the `java.lang.String` operations the worker relies on, as pure
  functions. These are `endsWith`, `contains`, `split(" ")` and
  `replace(target, replacement)`, with their partners: `Join` undoes
  `Pieces`, and `Contains` agrees with the index-based definition.
- `RequestReader`: `readHTTPRequest` as a recursive specification over the
  request lines (`ReadRequest`), plus the lemmas about which line supplies the
  path and when reading stops.
- `Http`: the extension chain (`ContentTypeOf`) and its table, the header
  block (`Header`, `HeaderLines`), and a client-side reading of a response
  (`ParseMessage`) with its round trip.
- `Template`: the two substitutions of `writeHtmlContent` (`FillTemplate`) and
  when no token can be left behind.
- `Worker`: the class `WebWorker`. Its `output` field is what the connection's
  output stream has received. Its `files` map is the file store, keyed by path
  relative to the working directory. Its `serverName` is the name the template
  inserts. Its methods follow `run`, `readHTTPRequest`, `writeHTTPHeader` and
  `writeHtmlContent`. `Response` is the function those methods are proved
  against.

Where the worker's written design and its code differ, the model follows the
code:

- The path comes from the first line whose first token contains `GET`, not only
  from the first line. Lines before it are read past.
- Tokens are separated by single spaces, with Java `split` rules. Leading empty
  tokens are kept and trailing ones are dropped. `""` splits to `[""]` and
  `" "` splits to `[]`. This is not general whitespace splitting.
- The `Server:` header line is the literal `Jon's very own server`. The
  template's `<cs371server>` is filled with the `serverName` field,
  `Danya's Server`. The two are different strings and are kept apart
  (`Http.ServerLine`, `Template.ServerName`).
- The template tokens are not always gone from the result. A token can survive
  when the substituted text completes a token whose `<` comes just before it.
  For example, the page `<<cs371date>` with the date `cs371date>` gives
  `<cs371date>` (`Template.UnsafeDateLeavesToken`). The no-token property is
  therefore proved for substitutes that contain no `<` or `>` and are not a
  piece of either token (`Template.SafeFill`). Any such text longer than
  13 characters qualifies, and so does `Danya's Server`.

The date strings are parameters. `writeHTTPHeader` and `writeHtmlContent`
each call `getDateString()` separately, so `Run` takes a `headerDate` and a
`bodyDate`.

## Model

| member | source | states |
|---|---|---|
| `Worker.WebWorker.ReadHttpRequest` | WebWorker.java:108-132 | The `while (true)` loop with its three exits: the end of input, an exception, and an empty line. It returns exactly the path the recursive `ReadRequest` gives for the same lines. |
| `RequestReader.PathNeverOverwritten` | WebWorker.java:120-123 | Once a path is recorded, no later line changes it. This holds whatever the later lines are, including lines the loop would otherwise throw on. |
| `RequestReader.FirstGetLineWins` | WebWorker.java:117-123 | If the lines before line `k` are non-empty, have a first token and contain no `GET` in it, and line `k` has `GET` in its first token and a non-empty second token, then the path is line `k`'s second token minus its first character. Line `k` need not be the first line. |
| `RequestReader.ReturnedPathHasGetLine` | WebWorker.java:117-123 | Conversely, a returned path always comes from such a line `k`, preceded only by ignorable lines. |
| `RequestReader.StopsAtEmptyLine` | WebWorker.java:125 | Reading ends at the first empty line. Lines after it never change the result, from any starting state. |
| `RequestReader.MalformedLineStops` | WebWorker.java:119-128 | While no path is recorded, these lines end reading with no path (`null`), whatever follows: a line with no tokens, or a `GET` line whose second token is missing or empty. |
| `RequestReader.EndOfInputWithoutPath` | WebWorker.java:117-129 | If the input runs out before a `GET` line, the result is no path (`null`). |
| `RequestReader.RequestLinePath` | WebWorker.java:119-122 | A line `m c+name v` gives `name`, where `m` contains `GET`, none of the three tokens contains a space, and `v` is not empty. Exactly one leading character `c` is removed, whatever it is. |
| `RequestReader.GetRequestPath` | WebWorker.java:119-122 | `GET /<name> HTTP/1.1` followed by the blank line gives `<name>`. |
| `JavaText.JavaSplit` | WebWorker.java:119 | `split(" ")`: no token contains a space. No space in the line gives exactly `[line]`. Otherwise the tokens are a prefix of all the pieces, only empty pieces are dropped, and the last token kept is not empty. |
| `JavaText.JavaSplitJoin` | WebWorker.java:119 | Splitting the space-join of space-free tokens gives the tokens back, when there is one token or the last one is not empty. |
| `JavaText.JoinPieces` | WebWorker.java:119 | Joining the pieces of a line at the separator gives the line back. |
| `JavaText.PiecesJoin` | WebWorker.java:119 | Splitting a join of separator-free pieces gives the pieces back. |
| `JavaText.ContainsIffOccurrence` | WebWorker.java:120 | `contains` holds exactly when the string occurs at some index. |
| `JavaText.ReplaceAbsent` | WebWorker.java:175-176 | `replace` leaves text without the target unchanged. |
| `JavaText.ReplaceRemovesAll` | WebWorker.java:175-176 | After `replace`, no occurrence of the target is left. This holds when the replacement lacks the target's first and last characters and is not a piece of the target. |
| `JavaText.ReplaceAddsNone` | WebWorker.java:175-176 | Under the same conditions on a string `w`, `replace` creates no occurrence of `w` that was not already in the text. |
| `Http.ExtensionsExclusive` | WebWorker.java:63-83 | No path ends with two different extensions of the table. |
| `Http.ContentTypeMatchesTable` | WebWorker.java:63-83 | The case-sensitive `endsWith` chain gives type `mt` exactly when the path ends with an extension the table maps to `mt`. The table is `.html` to `text/html`, `.jpg`/`.jpeg` to `image/jpeg`, `.png` to `image/png`, `.gif` to `image/gif`, and `.ico` to `image/x-icon`. |
| `Http.UnmappedExtension` | WebWorker.java:63-85 | The chain takes no branch exactly when the path ends with none of the six extensions. |
| `Http.HeaderText` | WebWorker.java:144-154 | The header is, in write order: `HTTP/1.1 <code>`, `Date: <date>`, `Server: Jon's very own server`, `Connection: close`, `Content-Type: <type>`, each line ended by a newline, then one more newline. |
| `Http.HeaderShape` | WebWorker.java:144-154 | The header lines start with the status line, which has no reason phrase. They contain exactly one `Connection: close` line, no line beginning `Content-Length`, and no empty line. |
| `Http.HeaderPieces` | WebWorker.java:144-154 | Split at newlines, a header followed by any body gives the five header lines, one blank line, then the body's own lines. |
| `Http.ParseHeaderAndBody` | WebWorker.java:144-154 | A client that splits at the first blank line recovers exactly the five header lines and the body, for any body. |
| `Template.NoTokenSurvives` | WebWorker.java:175-176 | With safe substitutes, the filled page contains neither `<cs371date>` nor `<cs371server>`. |
| `Template.NoTokenUnchanged` | WebWorker.java:175-176 | A page containing neither token is sent unchanged. |
| `Template.UnsafeDateLeavesToken` | WebWorker.java:175 | With the date `cs371date>`, the page `<<cs371date>` becomes `<cs371date>`: without the safety condition a token survives. |
| `Template.ServerNameIsSafe` | WebWorker.java:45 | The `serverName` value `Danya's Server` is a safe substitute. |
| `Template.FillServerThenDate` | WebWorker.java:175-176 | In a page `a<cs371server>b<cs371date>` with no other `<`, the tokens become the server name and the date in place. |
| `Template.HelloPage` | WebWorker.java:175-176 | `Hello <cs371server> on <cs371date>` becomes `Hello Danya's Server on <date>`. |
| `Worker.WebWorker.constructor` | WebWorker.java:42-46 | A new worker has the given file store, the server name `Danya's Server` and an empty output. |
| `Worker.WebWorker.WriteHttpHeader` | WebWorker.java:141-156 | The nine writes append exactly `Header(contentType, code, date)` and nothing else. |
| `Worker.WebWorker.WriteHtmlContent` | WebWorker.java:170-179 | Appends the file's text with `<cs371date>` replaced first and `<cs371server>` second. |
| `Worker.WebWorker.CopyFile` | WebWorker.java:70 | Appends the file's contents byte for byte. |
| `Worker.WebWorker.Send` | WebWorker.java:63-83 | One branch of the chain appends the 200 header with the type's name, then the filled page for HTML or the raw file otherwise. |
| `Worker.WebWorker.ServeFile` | WebWorker.java:61-85 | For an existing file, the `endsWith` chain appends what `Response` prescribes. For an unmapped extension that is nothing. |
| `Worker.WebWorker.Run` | WebWorker.java:53-102 | One connection appends exactly `Response(ReadRequest(input), …)`. Nothing is appended when no path was read, because `new File(null)` throws. |
| `Worker.NothingWritten` | WebWorker.java:59-98 | The response is empty exactly when there is no path, or the file exists with an extension outside the table. |
| `Worker.NotFoundResponse` | WebWorker.java:88-91 | For a missing file, a client reads the header lines of a `404` with `Content-Type: text/html` and the body `404 Not Found`. |
| `Worker.ImageResponse` | WebWorker.java:67-83 | For an existing file with an image extension, a client reads a `200` header with the table's type and a body equal to the file's bytes. |
| `Worker.HtmlResponse` | WebWorker.java:63-66 | For an existing `.html` file, a client reads a `200` `text/html` header and the filled page. |
| `Worker.HtmlBodyHasNoToken` | WebWorker.java:63-66 | With safe substitutes, the body a client reads for an `.html` file contains neither template token. |
| `Worker.IndexPageResponse` | WebWorker.java:61-66 | The response for `index.html` holding `Hello <cs371server> on <cs371date>` is a 200 `text/html` header and the body `Hello Danya's Server on <date>`. |
| `Worker.IndexPageExchange` | WebWorker.java:59-66 | The request `GET /index.html HTTP/1.1`, then a blank line, against that page gives that 200 response. |
| `Worker.MissingPageExchange` | WebWorker.java:59-91 | The request `GET /missing.html HTTP/1.1`, then a blank line, with no such file gives a 404 with the body `404 Not Found`. |

## Left out

- The socket, `Runnable` and the per-connection thread (WebWorker.java:33-58, 95-96) are concurrency and I/O plumbing. The request is a sequence of lines and the response is a `string` field.
- The `while (!r.ready()) Thread.sleep(1)` wait (line 116) is not modelled. It is timing. The end of the line sequence stands for `readLine()` returning `null`, and a stream that never becomes ready is outside the model.
- `System.err` logging is not modelled. It has no effect on the response.
- `getDateString` (lines 158-163) is a locale-dependent library call. Its results are the parameters `headerDate` and `bodyDate`.
- File access is a map from path to contents. The model does not cover `File.exists` on directories, path normalisation (paths are used verbatim as keys), or `getBytes` character encoding.
- `Scanner.useDelimiter("\\Z")` reading is not modelled: the map holds the text `writeHtmlContent` reads. The model also leaves out its exception on an empty file, which in the code comes after the header is written.
- I/O errors during writing are left out, and so is the partial response they would leave. The model has no failing writes.
- `BufferedReader.readLine` terminator recognition is left out: the input arrives already split into lines.
- `JavaText.Replace` requires a non-empty target. The code only replaces the two fixed tokens, so Java's behaviour for an empty target is not needed.
- `Template.NoTokenSurvives` is weaker than an unconditional "no token remains". It needs `SafeFill` substitutes, because the unconditional claim is false (`Template.UnsafeDateLeavesToken`).
- `Worker.HtmlBodyHasNoToken` carries the same `SafeFill` condition, for the same reason.
