/** `HttpServer.format_http_response` and an independent reader of its
    output. The reader is the formatter's partner: every formatted response
    reads back as its status code and body, and every text the reader accepts
    is a formatted response. */
module HttpResponse {
  import opened Wrappers

  /** The protocol version written on every status line. */
  const Version := "HTTP/1.0"

  /** Where the three digits of the code start on a status line. */
  const CodeAt := |Version| + 1

  /** What a handler decides: a status code and a body. */
  datatype Reply = Reply(code: int, body: string)

  /** The five status codes the formatter knows. */
  predicate IsKnownStatus(code: int) {
    code == 200 || code == 400 || code == 404 || code == 500 || code == 501
  }

  /** The reason phrase written after each known code. */
  function ReasonPhrase(code: int): string
    requires IsKnownStatus(code)
  {
    if code == 200 then "OK"
    else if code == 400 then "BAD REQUEST"
    else if code == 404 then "NOT FOUND"
    else if code == 500 then "INTERNAL SERVER ERROR"
    else "NOT IMPLEMENTED"
  }

  function Digit(d: int): char
    requires 0 <= d < 10
  {
    (('0' as int) + d) as char
  }

  predicate IsDigit(c: char) {
    '0' <= c <= '9'
  }

  function DigitValue(c: char): int
    requires IsDigit(c)
  {
    c as int - '0' as int
  }

  /** A three-digit code written in decimal. */
  function Decimal3(code: int): string
    requires 100 <= code <= 999
  {
    [Digit(code / 100), Digit(code % 100 / 10), Digit(code % 100 % 10)]
  }

  /** Reading the three digits back gives the code. */
  lemma Decimal3Reads(code: int)
    requires 100 <= code <= 999
    ensures var s := Decimal3(code);
            && |s| == 3
            && IsDigit(s[0]) && IsDigit(s[1]) && IsDigit(s[2])
            && 100 * DigitValue(s[0]) + 10 * DigitValue(s[1]) + DigitValue(s[2]) == code
  {
  }

  /** `HTTP/1.0 <code> <phrase>`. */
  function StatusLine(code: int): string
    requires IsKnownStatus(code)
  {
    Version + " " + Decimal3(code) + " " + ReasonPhrase(code)
  }

  /** The five status lines, spelled out. */
  lemma StatusLines()
    ensures StatusLine(200) == Version + " 200 OK"
    ensures StatusLine(400) == Version + " 400 BAD REQUEST"
    ensures StatusLine(404) == Version + " 404 NOT FOUND"
    ensures StatusLine(500) == Version + " 500 INTERNAL SERVER ERROR"
    ensures StatusLine(501) == Version + " 501 NOT IMPLEMENTED"
  {
    StatusLineSpelled(200, "200", "OK");
    StatusLineSpelled(400, "400", "BAD REQUEST");
    StatusLineSpelled(404, "404", "NOT FOUND");
    StatusLineSpelled(500, "500", "INTERNAL SERVER ERROR");
    StatusLineSpelled(501, "501", "NOT IMPLEMENTED");
  }

  lemma StatusLineSpelled(code: int, digits: string, phrase: string)
    requires IsKnownStatus(code)
    requires Decimal3(code) == digits && ReasonPhrase(code) == phrase
    ensures StatusLine(code) == Version + (" " + digits + " " + phrase)
  {
  }

  /** The match statement of the source: each known code produces its
      status line, an empty line and the body; any other code falls off the
      end of the match and the function returns None. */
  function FormatHttpResponse(code: int, html: string): (r: Option<string>)
    ensures r.Some? <==> IsKnownStatus(code)
    ensures r.Some? ==> r.value == StatusLine(code) + "\n\n" + html
  {
    FormattedStatusLines(html);
    match code
    case 200 => Some(Version + " 200 OK\n\n" + html)
    case 400 => Some(Version + " 400 BAD REQUEST\n\n" + html)
    case 404 => Some(Version + " 404 NOT FOUND\n\n" + html)
    case 500 => Some(Version + " 500 INTERNAL SERVER ERROR\n\n" + html)
    case 501 => Some(Version + " 501 NOT IMPLEMENTED\n\n" + html)
    case _ => None
  }

  /** Each f-string of the source is the status line of its code, a blank
      line and the body. */
  lemma FormattedStatusLines(html: string)
    ensures Version + " 200 OK\n\n" + html == StatusLine(200) + "\n\n" + html
    ensures Version + " 400 BAD REQUEST\n\n" + html == StatusLine(400) + "\n\n" + html
    ensures Version + " 404 NOT FOUND\n\n" + html == StatusLine(404) + "\n\n" + html
    ensures Version + " 500 INTERNAL SERVER ERROR\n\n" + html == StatusLine(500) + "\n\n" + html
    ensures Version + " 501 NOT IMPLEMENTED\n\n" + html == StatusLine(501) + "\n\n" + html
  {
    StatusLines();
    FormatArm(200, " 200 OK", html);
    FormatArm(400, " 400 BAD REQUEST", html);
    FormatArm(404, " 404 NOT FOUND", html);
    FormatArm(500, " 500 INTERNAL SERVER ERROR", html);
    FormatArm(501, " 501 NOT IMPLEMENTED", html);
  }

  /** One arm of the match writes the status line of its code. */
  lemma FormatArm(code: int, rest: string, html: string)
    requires IsKnownStatus(code)
    requires StatusLine(code) == Version + rest
    ensures Version + (rest + "\n\n") + html == StatusLine(code) + "\n\n" + html
  {
  }

  /** Does a blank line, two consecutive line feeds, start at `i`? */
  predicate BlankLineAt(s: string, i: int) {
    0 <= i && i + 1 < |s| && s[i] == '\n' && s[i + 1] == '\n'
  }

  /** Where the first blank line of `s` starts, if it has one. */
  function BlankLineIndex(s: string): (r: Option<nat>)
    ensures r.Some? ==> BlankLineAt(s, r.value)
    ensures r.Some? ==> forall j :: 0 <= j < r.value ==> !BlankLineAt(s, j)
    ensures r.None? ==> forall j :: 0 <= j < |s| ==> !BlankLineAt(s, j)
    decreases |s|
  {
    if |s| < 2 then None
    else if s[0] == '\n' && s[1] == '\n' then Some(0)
    else
      match BlankLineIndex(s[1..])
      case None =>
        assert forall j :: 1 <= j < |s| ==> (BlankLineAt(s, j) <==> BlankLineAt(s[1..], j - 1));
        None
      case Some(i) =>
        assert forall j :: 1 <= j < |s| ==> (BlankLineAt(s, j) <==> BlankLineAt(s[1..], j - 1));
        Some(i + 1)
  }

  /** Reads a response: the head is the text before the first blank line
      and must be the status line of a known code; the body is everything
      after that blank line. */
  function ParseResponse(w: string): Option<Reply> {
    match BlankLineIndex(w)
    case None => None
    case Some(i) =>
      var head := w[..i];
      if |head| >= CodeAt + 3 && IsDigit(head[CodeAt]) && IsDigit(head[CodeAt + 1]) && IsDigit(head[CodeAt + 2]) then
        var code := 100 * DigitValue(head[CodeAt]) + 10 * DigitValue(head[CodeAt + 1]) + DigitValue(head[CodeAt + 2]);
        if IsKnownStatus(code) && head == StatusLine(code) then Some(Reply(code, w[i + 2..]))
        else None
      else None
  }

  /** No status line contains a line feed. */
  lemma StatusLineOneLine(code: int)
    requires IsKnownStatus(code)
    ensures '\n' !in StatusLine(code)
    ensures |StatusLine(code)| >= CodeAt + 3
    ensures StatusLine(code)[CodeAt..CodeAt + 3] == Decimal3(code)
  {
  }

  /** The first blank line of a formatted response is the one the formatter
      wrote, whatever the body holds, so the body can be read back exactly. */
  lemma {:induction false} ParseFormat(code: int, body: string)
    requires IsKnownStatus(code)
    ensures ParseResponse(FormatHttpResponse(code, body).value) == Some(Reply(code, body))
  {
    var head := StatusLine(code);
    var w := head + "\n\n" + body;
    StatusLineOneLine(code);
    assert BlankLineAt(w, |head|);
    assert forall j :: 0 <= j < |head| ==> w[j] == head[j];
    var i := BlankLineIndex(w).value;
    assert i == |head|;
    assert w[..i] == head;
    assert w[i + 2..] == body;
    Decimal3Reads(code);
    assert head[CodeAt..CodeAt + 3] == Decimal3(code);
    assert head[CodeAt] == Decimal3(code)[0] && head[CodeAt + 1] == Decimal3(code)[1] && head[CodeAt + 2] == Decimal3(code)[2];
  }

  /** Conversely, a text the reader accepts is exactly the formatter's
      output for what it reads. */
  lemma FormatParse(w: string, reply: Reply)
    requires ParseResponse(w) == Some(reply)
    ensures FormatHttpResponse(reply.code, reply.body) == Some(w)
  {
    var i := BlankLineIndex(w).value;
    assert w == w[..i] + "\n\n" + w[i + 2..];
  }

  /** The body of a formatted response is the text after its first blank
      line, whatever the body itself contains. */
  lemma BodyAfterFirstBlankLine(code: int, body: string)
    requires IsKnownStatus(code)
    ensures var w := FormatHttpResponse(code, body).value;
            BlankLineIndex(w).Some? && w[BlankLineIndex(w).value + 2..] == body
  {
    ParseFormat(code, body);
  }
}
