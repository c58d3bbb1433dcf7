/** `HttpServer.process_request` and `HttpServer.extract_page_info`: the
    path from the text of a request to the text of its response. The file
    system is a map from path to file text, and each exception the source
    lets escape is the `Failure` arm of a `Result`. */
module WebServer {
  import opened Wrappers
  import opened PyStr
  import opened HttpResponse

  /** `HttpFields.QUERY`: marks the start of a query string. */
  const Query: char := '?'
  /** `HttpFields.DELIMITER`: separates a file name from its extension. */
  const Delimiter: char := '.'

  /** The only method the server implements. */
  const Get := "GET"
  /** Directory, relative to the working directory, that holds the pages. */
  const StaticRoot := "html/"
  const DefaultFilename := "index"
  const DefaultExtension := "html"

  const NotFoundBody := "File Not Found"
  const QueryBody := "Query string not implemented"

  /** The static content: the text of each readable file, by path. */
  type FileSystem = map<string, string>

  /** The ValueErrors that escape `process_request`: a tuple unpack that
      got the wrong number of values. */
  datatype Fault =
    | RequestLineUnpack(got: nat)  // three tokens expected on the request line
    | PageInfoUnpack(got: nat)     // file name and extension expected

  datatype RequestLine = RequestLine(httpMethod: string, page: string, httpVersion: string)

  datatype PageInfo = PageInfo(filename: string, extension: string)

  /** The request line: the first line of the request, which must split on
      whitespace into exactly method, target and version. */
  function ParseRequestLine(request: string): (r: Result<RequestLine, Fault>)
    ensures r.Success? <==> |Split(FirstLine(request))| == 3
    ensures r.Failure? ==> r.error == RequestLineUnpack(|Split(FirstLine(request))|)
    ensures r.Success? ==> IsWord(r.value.httpMethod) && IsWord(r.value.page) && IsWord(r.value.httpVersion)
  {
    var tokens := Split(FirstLine(request));
    if |tokens| == 3 then Success(RequestLine(tokens[0], tokens[1], tokens[2]))
    else Failure(RequestLineUnpack(|tokens|))
  }

  /** The text of a request whose first line is `m t v`. */
  function RequestText(m: string, t: string, v: string, rest: string): string {
    m + " " + t + " " + v + rest
  }

  /** A request line written as three words separated by single spaces and
      ended by a line feed or the end of the request parses back into those
      three words, whatever follows the line feed. */
  lemma ParseRequestLineOf(m: string, t: string, v: string, rest: string)
    requires IsWord(m) && IsWord(t) && IsWord(v)
    requires rest == [] || rest[0] == '\n'
    ensures ParseRequestLine(RequestText(m, t, v, rest)) == Success(RequestLine(m, t, v))
  {
    var ws := [m, t, v];
    var line := m + " " + t + " " + v;
    assert JoinWords(ws[2..]) == v;
    assert JoinWords(ws[1..]) == t + " " + v;
    assert JoinWords(ws) == line;
    JoinWordsOneLine(ws);
    SplitJoinWords(ws);
    FirstLineOf(line, rest);
  }

  /** A carriage return ending the request line changes nothing. */
  lemma ParseRequestLineCR(line: string, rest: string)
    requires '\n' !in line
    requires rest == [] || rest[0] == '\n'
    ensures ParseRequestLine(line + "\r" + rest) == ParseRequestLine(line + rest)
  {
    FirstLineOf(line, rest);
    FirstLineOf(line + "\r", rest);
    SplitTrailingSpace(line, '\r');
  }

  /** The line an HTTP client sends, `m t v` ended by a carriage return
      and a line feed, parses into those three words. */
  lemma ParseRequestLineCRLF(m: string, t: string, v: string, rest: string)
    requires IsWord(m) && IsWord(t) && IsWord(v)
    requires rest == [] || rest[0] == '\n'
    ensures ParseRequestLine(RequestText(m, t, v, "\r" + rest)) == Success(RequestLine(m, t, v))
  {
    var ws := [m, t, v];
    var line := m + " " + t + " " + v;
    assert JoinWords(ws[2..]) == v;
    assert JoinWords(ws[1..]) == t + " " + v;
    assert JoinWords(ws) == line;
    JoinWordsOneLine(ws);
    ParseRequestLineOf(m, t, v, rest);
    ParseRequestLineCR(line, rest);
    assert RequestText(m, t, v, "\r" + rest) == line + "\r" + rest;
  }

  /** A request line with any spacing around and between its three words
      (blanks, tabs, a closing carriage return), ended by a line feed or the
      end of the request, parses into those words. */
  lemma ParseRequestLineSpaced(gaps: seq<string>, m: string, t: string, v: string, rest: string)
    requires Spacing(gaps, [m, t, v])
    requires forall i :: 0 <= i < |gaps| ==> '\n' !in gaps[i]
    requires IsWord(m) && IsWord(t) && IsWord(v)
    requires rest == [] || rest[0] == '\n'
    ensures ParseRequestLine(Interleave(gaps, [m, t, v]) + rest) == Success(RequestLine(m, t, v))
  {
    var ws := [m, t, v];
    InterleaveOneLine(gaps, ws);
    FirstLineOf(Interleave(gaps, ws), rest);
    SplitInterleave(gaps, ws);
  }

  /** `extract_page_info`: drop one leading `/`; a page with a delimiter
      must split into exactly a file name and an extension, one without it
      gets the default extension; an empty file name becomes the default. */
  function ExtractPageInfo(page: string): (r: Result<PageInfo, Fault>)
    ensures r.Success? <==> Count(RemovePrefix(page, "/"), Delimiter) <= 1
    ensures r.Success? ==> r.value.filename != []
    ensures r.Success? ==> Delimiter !in r.value.filename && Delimiter !in r.value.extension
  {
    var p := RemovePrefix(page, "/");
    var parts := if Delimiter in p then SplitOn(p, Delimiter) else [p, DefaultExtension];
    if |parts| != 2 then Failure(PageInfoUnpack(|parts|))
    else Success(PageInfo(if parts[0] == [] then DefaultFilename else parts[0], parts[1]))
  }

  /** A page without a delimiter is a file name with the default extension. */
  lemma PageInfoWithoutDelimiter(page: string)
    requires Delimiter !in RemovePrefix(page, "/")
    ensures var p := RemovePrefix(page, "/");
            ExtractPageInfo(page) == Success(PageInfo(if p == [] then DefaultFilename else p, DefaultExtension))
  {
  }

  /** A page with one delimiter is split at it. */
  lemma PageInfoWithDelimiter(page: string, name: string, ext: string)
    requires Delimiter !in name && Delimiter !in ext
    requires RemovePrefix(page, "/") == name + [Delimiter] + ext
    ensures ExtractPageInfo(page) == Success(PageInfo(if name == [] then DefaultFilename else name, ext))
  {
    SplitOnPrefix(name, ext, Delimiter);
    SplitOnNone(ext, Delimiter);
  }

  /** Two delimiters in a row make the unpack fail, so a page holding `..`
      is never resolved to a file. */
  lemma PageInfoDoubleDot(page: string, i: nat)
    requires i + 1 < |page| && page[i] == '.' && page[i + 1] == '.'
    ensures ExtractPageInfo(page).Failure?
  {
    var p := RemovePrefix(page, "/");
    if "/" <= page {
      assert page == "/" + p;
      assert i >= 1;
      assert p[i - 1] == page[i] && p[i] == page[i + 1];
      AdjacentCount(p, Delimiter, i - 1);
    } else {
      AdjacentCount(p, Delimiter, i);
    }
  }

  /** `/`, `/index` and `/index.html` all name the default page. */
  lemma PageInfoDefaults()
    ensures ExtractPageInfo("/") == Success(PageInfo(DefaultFilename, DefaultExtension))
    ensures ExtractPageInfo("/index") == Success(PageInfo(DefaultFilename, DefaultExtension))
    ensures ExtractPageInfo("/index.html") == Success(PageInfo(DefaultFilename, DefaultExtension))
  {
    PageInfoWithoutDelimiter("/");
    assert RemovePrefix("/index", "/") == "index";
    PageInfoWithoutDelimiter("/index");
    assert RemovePrefix("/index.html", "/") == "index" + [Delimiter] + "html";
    PageInfoWithDelimiter("/index.html", "index", "html");
  }

  /** Only one leading slash is removed: `//index` names the file `/index`. */
  lemma PageInfoOneSlash()
    ensures ExtractPageInfo("//index") == Success(PageInfo("/index", DefaultExtension))
  {
    assert RemovePrefix("//index", "/") == "/index";
    PageInfoWithoutDelimiter("//index");
  }

  /** `html/<filename>.<extension>`. */
  function FilePath(info: PageInfo): string {
    StaticRoot + info.filename + [Delimiter] + info.extension
  }

  /** The path lies under the static root, and the file name and extension
      split back out of the rest of it at its one delimiter. */
  lemma FilePathReadsBack(info: PageInfo)
    requires Delimiter !in info.filename && Delimiter !in info.extension
    ensures StaticRoot <= FilePath(info)
    ensures SplitOn(FilePath(info)[|StaticRoot|..], Delimiter) == [info.filename, info.extension]
  {
    assert FilePath(info)[|StaticRoot|..] == info.filename + [Delimiter] + info.extension;
    SplitOnPrefix(info.filename, info.extension, Delimiter);
    SplitOnNone(info.extension, Delimiter);
  }

  /** A resolved path lies under the static root and holds exactly one
      delimiter, so it never contains `..`. */
  lemma FilePathConfined(page: string)
    requires ExtractPageInfo(page).Success?
    ensures var path := FilePath(ExtractPageInfo(page).value);
            && StaticRoot <= path
            && Count(path, Delimiter) == 1
            && forall i :: 0 <= i < |path| - 1 ==> !(path[i] == '.' && path[i + 1] == '.')
  {
    var info := ExtractPageInfo(page).value;
    var path := FilePath(info);
    assert Count(StaticRoot, Delimiter) == 0;
    assert Count([Delimiter], Delimiter) == 1;
    CountAppend(StaticRoot, info.filename, Delimiter);
    CountAppend(StaticRoot + info.filename, [Delimiter], Delimiter);
    CountAppend(StaticRoot + info.filename + [Delimiter], info.extension, Delimiter);
    forall i | 0 <= i < |path| - 1
      ensures !(path[i] == '.' && path[i + 1] == '.')
    {
      if path[i] == '.' && path[i + 1] == '.' {
        AdjacentCount(path, Delimiter, i);
      }
    }
  }

  /** What `process_request` does once the request line is parsed: reject a
      method other than GET, then a target with a query string, then read
      the file the target names. */
  function Dispatch(line: RequestLine, fs: FileSystem): (r: Result<Reply, Fault>)
    ensures r.Success? ==> r.value.code == 200 || r.value.code == 404 || r.value.code == 501
    ensures r.Failure? <==>
              && line.httpMethod == Get
              && Query !in line.page
              && Count(RemovePrefix(line.page, "/"), Delimiter) >= 2
  {
    if line.httpMethod != Get then
      Success(Reply(501, line.httpMethod + " not implemented"))
    else if Query in line.page then
      Success(Reply(501, QueryBody))
    else
      var info :- ExtractPageInfo(line.page);
      var path := FilePath(info);
      if path in fs then Success(Reply(200, fs[path]))
      else Success(Reply(404, NotFoundBody))
  }

  /** The file `process_request` opens for a request, if it gets that far. */
  function LookupPath(request: string): (r: Option<string>)
    ensures r.Some? <==>
              && ParseRequestLine(request).Success?
              && ParseRequestLine(request).value.httpMethod == Get
              && Query !in ParseRequestLine(request).value.page
              && Count(RemovePrefix(ParseRequestLine(request).value.page, "/"), Delimiter) <= 1
    ensures r.Some? ==> StaticRoot <= r.value
  {
    match ParseRequestLine(request)
    case Failure(_) => None
    case Success(line) =>
      if line.httpMethod != Get || Query in line.page then None
      else
        match ExtractPageInfo(line.page)
        case Failure(_) => None
        case Success(info) => Some(FilePath(info))
  }

  /** `process_request`: the response text, or None when the status code
      has no case in the formatter, or the exception that escapes. */
  function ProcessRequest(request: string, fs: FileSystem): (r: Result<Option<string>, Fault>)
    ensures r.Success? ==> r.value.Some?
    ensures r.Success? ==> ParseResponse(r.value.value).Some?
    ensures r.Failure? <==> ParseRequestLine(request).Failure? || Dispatch(ParseRequestLine(request).value, fs).Failure?
  {
    var line :- ParseRequestLine(request);
    var reply :- Dispatch(line, fs);
    ParseFormat(reply.code, reply.body);
    Success(FormatHttpResponse(reply.code, reply.body))
  }

  /** A request whose first line does not hold exactly three tokens raises. */
  lemma MalformedRequestLineRaises(request: string, fs: FileSystem)
    requires |Split(FirstLine(request))| != 3
    ensures ProcessRequest(request, fs) == Failure(RequestLineUnpack(|Split(FirstLine(request))|))
  {
  }

  /** Any method but GET is answered 501 naming the method, whatever the
      target and whatever the files: nothing is looked up. */
  lemma OtherMethodNotImplemented(request: string, line: RequestLine, fs: FileSystem)
    requires ParseRequestLine(request) == Success(line)
    requires line.httpMethod != Get
    ensures ProcessRequest(request, fs)
            == Success(Some(StatusLine(501) + "\n\n" + (line.httpMethod + " not implemented")))
    ensures LookupPath(request).None?
  {
    assert Dispatch(line, fs) == Success(Reply(501, line.httpMethod + " not implemented"));
  }

  /** A GET whose target holds `?` is answered 501 without a lookup. */
  lemma QueryNotImplemented(request: string, line: RequestLine, fs: FileSystem)
    requires ParseRequestLine(request) == Success(line)
    requires line.httpMethod == Get && Query in line.page
    ensures ProcessRequest(request, fs) == Success(Some(StatusLine(501) + "\n\n" + QueryBody))
    ensures LookupPath(request).None?
  {
  }

  /** Any other GET whose target resolves reads `html/<filename>.<ext>`:
      200 with the file's text when it exists, 404 otherwise. */
  lemma GetReadsFile(request: string, line: RequestLine, fs: FileSystem)
    requires ParseRequestLine(request) == Success(line)
    requires line.httpMethod == Get && Query !in line.page
    requires ExtractPageInfo(line.page).Success?
    ensures var path := FilePath(ExtractPageInfo(line.page).value);
            && LookupPath(request) == Some(path)
            && ProcessRequest(request, fs)
               == Success(Some(if path in fs then StatusLine(200) + "\n\n" + fs[path]
                               else StatusLine(404) + "\n\n" + NotFoundBody))
  {
  }

  /** A GET whose target holds `..` (and no query) raises instead of
      reading anything. */
  lemma DoubleDotRaises(request: string, line: RequestLine, fs: FileSystem, i: nat)
    requires ParseRequestLine(request) == Success(line)
    requires line.httpMethod == Get && Query !in line.page
    requires i + 1 < |line.page| && line.page[i] == '.' && line.page[i + 1] == '.'
    ensures ProcessRequest(request, fs).Failure?
    ensures LookupPath(request).None?
  {
    PageInfoDoubleDot(line.page, i);
  }

  /** `GET /`, `GET /index` and `GET /index.html` all open `html/index.html`
      and get the same response, whatever their versions. */
  lemma DefaultPageAliases(r1: string, r2: string, r3: string, v1: string, v2: string, v3: string, fs: FileSystem)
    requires ParseRequestLine(r1) == Success(RequestLine(Get, "/", v1))
    requires ParseRequestLine(r2) == Success(RequestLine(Get, "/index", v2))
    requires ParseRequestLine(r3) == Success(RequestLine(Get, "/index.html", v3))
    ensures ProcessRequest(r1, fs) == ProcessRequest(r2, fs) == ProcessRequest(r3, fs)
    ensures LookupPath(r1) == LookupPath(r2) == LookupPath(r3) == Some("html/index.html")
  {
    PageInfoDefaults();
    DefaultTargetsHaveNoQuery();
    DefaultPageResponse(r1, RequestLine(Get, "/", v1), fs);
    DefaultPageResponse(r2, RequestLine(Get, "/index", v2), fs);
    DefaultPageResponse(r3, RequestLine(Get, "/index.html", v3), fs);
  }

  lemma DefaultFilePath()
    ensures FilePath(PageInfo(DefaultFilename, DefaultExtension)) == "html/index.html"
  {
  }

  lemma DefaultTargetsHaveNoQuery()
    ensures Query !in "/" && Query !in "/index" && Query !in "/index.html"
  {
  }

  lemma DefaultPageResponse(request: string, line: RequestLine, fs: FileSystem)
    requires ParseRequestLine(request) == Success(line)
    requires line.httpMethod == Get && Query !in line.page
    requires ExtractPageInfo(line.page) == Success(PageInfo(DefaultFilename, DefaultExtension))
    ensures LookupPath(request) == Some("html/index.html")
    ensures ProcessRequest(request, fs)
            == Success(Some(if "html/index.html" in fs then StatusLine(200) + "\n\n" + fs["html/index.html"]
                            else StatusLine(404) + "\n\n" + NotFoundBody))
  {
    DefaultFilePath();
    GetReadsFile(request, line, fs);
  }

  /** A client's `GET t v` line, ended by a carriage return and a line
      feed, reads `html/<filename>.<ext>` for any target that resolves. */
  lemma ClientGetReadsFile(t: string, v: string, rest: string, fs: FileSystem)
    requires IsWord(t) && IsWord(v) && Query !in t
    requires rest == [] || rest[0] == '\n'
    requires ExtractPageInfo(t).Success?
    ensures var path := FilePath(ExtractPageInfo(t).value);
            ProcessRequest(RequestText(Get, t, v, "\r" + rest), fs)
            == Success(Some(if path in fs then StatusLine(200) + "\n\n" + fs[path]
                            else StatusLine(404) + "\n\n" + NotFoundBody))
  {
    ParseRequestLineCRLF(Get, t, v, rest);
    GetReadsFile(RequestText(Get, t, v, "\r" + rest), RequestLine(Get, t, v), fs);
  }

  /** A client's line with any other method, ended by a carriage return and
      a line feed, is answered 501 naming the method. */
  lemma ClientOtherMethodNotImplemented(m: string, t: string, v: string, rest: string, fs: FileSystem)
    requires IsWord(m) && IsWord(t) && IsWord(v) && m != Get
    requires rest == [] || rest[0] == '\n'
    ensures ProcessRequest(RequestText(m, t, v, "\r" + rest), fs)
            == Success(Some(StatusLine(501) + "\n\n" + (m + " not implemented")))
  {
    ParseRequestLineCRLF(m, t, v, rest);
    OtherMethodNotImplemented(RequestText(m, t, v, "\r" + rest), RequestLine(m, t, v), fs);
  }

  /** The response depends on the files only through the one path looked
      up; a request that looks nothing up gets the same answer whatever the
      files. */
  lemma ReadsOnlyLookupPath(request: string, fs1: FileSystem, fs2: FileSystem)
    requires LookupPath(request).Some? ==>
               var p := LookupPath(request).value;
               (p in fs1 <==> p in fs2) && (p in fs1 ==> fs1[p] == fs2[p])
    ensures ProcessRequest(request, fs1) == ProcessRequest(request, fs2)
  {
  }

  /** A file is looked up only under the static root and never through `..`. */
  lemma LookupConfined(request: string)
    requires LookupPath(request).Some?
    ensures var p := LookupPath(request).value;
            && StaticRoot <= p
            && forall i :: 0 <= i < |p| - 1 ==> !(p[i] == '.' && p[i + 1] == '.')
  {
    FilePathConfined(ParseRequestLine(request).value.page);
  }
}
