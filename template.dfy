/**
 * The HTML templating of `writeHtmlContent`: every `<cs371date>` is replaced
 * by the date string, then every `<cs371server>` by the worker's server name.
 */
module Template {
  import opened JavaText

  const DateToken: string := "<cs371date>"
  const ServerToken: string := "<cs371server>"

  /** The worker's `serverName` field; only the template uses it. */
  const ServerName: string := "Danya's Server"

  /** The page sent for an HTML file with contents `content`. */
  function FillTemplate(content: string, date: string, serverName: string): string {
    Replace(Replace(content, DateToken, date), ServerToken, serverName)
  }

  /**
   * A text that can be substituted for either token without forming a new
   * token around it: it holds neither angle bracket and is not a piece of
   * either token.
   */
  predicate SafeFill(u: string) {
    '<' !in u && '>' !in u && !Contains(DateToken, u) && !Contains(ServerToken, u)
  }

  /** A bracket-free text longer than both tokens is safe. */
  lemma LongFillIsSafe(u: string)
    requires '<' !in u && '>' !in u && |u| > |ServerToken|
    ensures SafeFill(u)
  {
    if Contains(DateToken, u) { ContainsLength(DateToken, u); }
    if Contains(ServerToken, u) { ContainsLength(ServerToken, u); }
  }

  /** The worker's server name is safe. */
  lemma ServerNameIsSafe()
    ensures SafeFill(ServerName)
  {
    assert '<' !in ServerName && '>' !in ServerName;
    LongFillIsSafe(ServerName);
  }

  /** With safe substitutes, neither token is left in the page. */
  lemma NoTokenSurvives(content: string, date: string, serverName: string)
    requires SafeFill(date) && SafeFill(serverName)
    ensures !Contains(FillTemplate(content, date, serverName), DateToken)
    ensures !Contains(FillTemplate(content, date, serverName), ServerToken)
  {
    var dated := Replace(content, DateToken, date);
    ReplaceRemovesAll(content, DateToken, date);
    ReplaceRemovesAll(dated, ServerToken, serverName);
    if Contains(FillTemplate(content, date, serverName), DateToken) {
      ReplaceAddsNone(dated, ServerToken, serverName, DateToken);
    }
  }

  /** A page holding neither token is sent unchanged. */
  lemma NoTokenUnchanged(content: string, date: string, serverName: string)
    requires !Contains(content, DateToken) && !Contains(content, ServerToken)
    ensures FillTemplate(content, date, serverName) == content
  {
    ReplaceAbsent(content, DateToken, date);
    ReplaceAbsent(content, ServerToken, serverName);
  }

  /**
   * Without the safety condition a token can survive: the date text can
   * complete a token whose `<` precedes another token.
   */
  lemma UnsafeDateLeavesToken()
    ensures FillTemplate("<" + DateToken, "cs371date>", ServerName) == DateToken
  {
    var s := "<" + DateToken;
    assert s[..|DateToken|] != DateToken by { assert s[1] != DateToken[1]; }
    assert s[1..] == DateToken;
    ReplaceHead("", DateToken, "cs371date>");
    assert Replace(s, DateToken, "cs371date>") == "<" + "cs371date>";
    assert "<" + "cs371date>" == DateToken;
  }

  /** The server pass over a page with one server token and no other `<`. */
  lemma ServerPass(a: string, c: string, serverName: string)
    requires '<' !in a && '<' !in c
    ensures Replace(a + ServerToken + c, ServerToken, serverName) == a + serverName + c
  {
    assert a + ServerToken + c == a + (ServerToken + c);
    ReplaceSkipsPlain(a, ServerToken + c, ServerToken, serverName);
    ReplaceHead(c, ServerToken, serverName);
    assert c == c + [];
    ReplaceSkipsPlain(c, [], ServerToken, serverName);
  }

  /** The date pass over a page with a server token, then one date token, and no other `<`. */
  lemma DatePass(a: string, b: string, date: string)
    requires '<' !in a && '<' !in b
    ensures Replace(a + ServerToken + b + DateToken, DateToken, date) == a + ServerToken + b + date
  {
    var tail := ServerToken[1..] + b;
    var rest := tail + DateToken;
    assert '<' !in tail;
    assert a + ServerToken + b + DateToken == a + ([ '<' ] + rest);
    ReplaceSkipsPlain(a, ['<'] + rest, DateToken, date);
    assert (['<'] + rest)[6] != DateToken[6];
    assert (['<'] + rest)[1..] == rest;
    assert Replace(['<'] + rest, DateToken, date) == ['<'] + Replace(rest, DateToken, date);
    ReplaceSkipsPlain(tail, DateToken, DateToken, date);
    assert DateToken == DateToken + [];
    ReplaceHead([], DateToken, date);
    assert Replace(rest, DateToken, date) == tail + date;
    assert a + (['<'] + (tail + date)) == a + ServerToken + b + date;
  }

  /**
   * A page with a server token and, later, a date token, and no other `<`:
   * both tokens are filled in place.
   */
  lemma FillServerThenDate(a: string, b: string, date: string, serverName: string)
    requires '<' !in a && '<' !in b && '<' !in date
    ensures FillTemplate(a + ServerToken + b + DateToken, date, serverName) == a + serverName + b + date
  {
    DatePass(a, b, date);
    ServerPass(a, b + date, serverName);
    assert a + ServerToken + b + date == a + ServerToken + (b + date);
    assert a + serverName + (b + date) == a + serverName + b + date;
  }

  /** The demonstration page: `Hello <cs371server> on <cs371date>`. */
  lemma HelloPage(page: string, date: string)
    requires page == "Hello <cs371server> on <cs371date>"
    requires '<' !in date
    ensures FillTemplate(page, date, ServerName) == "Hello Danya's Server on " + date
  {
    assert page == "Hello " + ServerToken + " on " + DateToken;
    FillServerThenDate("Hello ", " on ", date, ServerName);
  }
}
