# A verified model of a minimal HTTP/1.0 request handler

The modelled server reads one request per connection, looks at the request
line only, and answers with a status line, an empty line and a body. The
part modelled here is the request handling of `HttpServer` in
`webserver.py`. It is pure text processing:

- `process_request` takes the first line of the request and splits it on
  whitespace into method, page and version. It answers 501 for a method other
  than `GET` and 501 for a page holding `?`. Otherwise it reads
  `html/<filename>.<extension>` and answers 200 with the file's text, or 404
  when the file is missing.
- `extract_page_info` drops one leading `/` and splits the page at `.` into
  file name and extension. The extension defaults to `html` and an empty file
  name becomes `index`.
- `format_http_response` turns one of five status codes and a body into
  `HTTP/1.0 <code> <PHRASE>\n\n<body>`. Any other code falls off the end of
  its `match`, so the function returns `None`.

Files:

- `wrappers.dfy` (`Wrappers`): `Option` stands for a Python value-or-`None`.
  `Result` stands for a value-or-exception.
- `pystr.dfy` (`PyStr`): the Python `str` operations the handler relies on.
  These are `split()` with no argument (CPython's whitespace set),
  `split(sep)`, `removeprefix` and `split('\n')[0]`. Each comes with its
  partner: a join it inverts, or the characterisation that pins it down.
- `response.dfy` (`HttpResponse`): the formatter, plus an independent reader
  of its output (`ParseResponse`). The two are proved inverse in both
  directions.
- `webserver.dfy` (`WebServer`): the `HttpFields` constants, request-line
  parsing, `extract_page_info` and `process_request`.
  - `Dispatch` is the part of `process_request` after the request line has
    been unpacked.
  - `LookupPath` names the file a request makes the server open.

How the source is modelled:

- The file system is a parameter `FileSystem = map<string, string>` from path
  to file text. A path absent from the map is a file that is not found.
- The two `ValueError`s that escape `process_request` are the `Failure` arm of
  a `Result` (`Fault`). They come from the wrong number of values in the tuple
  unpacks at lines 38 and 61.
- `ProcessRequest` returns `Result<Option<string>, Fault>`, mirroring Python's
  string-or-`None`-or-exception. It is proved never to produce `None`.

Behaviour of the source worth noting:

- A target holding `?` is answered 501; the query is never decoded.
- An unknown status code yields `None`.
- A page holding two or more `.` (so every page holding `..`) makes
  `extract_page_info` raise.
- A request line without exactly three tokens makes `process_request` raise,
  so no response is produced.

## Model

| member | source | states |
|---|---|---|
| PyStr.IsSpace | webserver.py:38 | the characters `str.split()` separates on include space, tab, carriage return and line feed, and no printable ASCII character |
| PyStr.Split | webserver.py:38 | every token `str.split()` returns is non-empty and whitespace-free |
| PyStr.SplitInterleave | webserver.py:38 | words laid out with any whitespace runs around them (non-empty between two words) split back into exactly those words |
| PyStr.SplitSpacing | webserver.py:38 | every text is its own tokens laid out with some whitespace runs, so `split()` breaks exactly at whitespace and drops nothing else |
| PyStr.SplitJoinWords | webserver.py:38 | splitting words joined by single spaces returns exactly those words |
| PyStr.SplitTrailingSpace | webserver.py:37-38 | whitespace (such as `\r`) at the end of the text does not change the tokens |
| PyStr.SplitKeepsContent | webserver.py:38 | the tokens concatenated equal the text with its whitespace removed: nothing else is dropped or reordered |
| PyStr.FirstLine | webserver.py:37-38 | `request.split('\n')[0]` is the prefix of the request that holds no line feed and ends at the first line feed or at the end |
| PyStr.FirstLineOf | webserver.py:37-38 | the first line is determined by the position of the first line feed, whatever follows it |
| PyStr.SplitOn | webserver.py:61 | `s.split(sep)` has one more piece than `s` has separators, and no piece holds the separator |
| PyStr.JoinSplitOn | webserver.py:61 | joining the pieces of `s.split(sep)` with `sep` rebuilds `s` |
| PyStr.SplitOnJoin | webserver.py:61 | splitting pieces free of `sep` after joining them with `sep` returns the pieces |
| PyStr.RemovePrefix | webserver.py:60 | `removeprefix` removes the prefix exactly once when present and leaves other text unchanged |
| HttpResponse.FormatHttpResponse | webserver.py:70-85 | a response exists exactly for 200, 400, 404, 500 and 501, and it is the status line of the code, a blank line and the body |
| HttpResponse.StatusLines | webserver.py:72-85 | the status line of each code is `HTTP/1.0`, the code in decimal and the phrase OK, BAD REQUEST, NOT FOUND, INTERNAL SERVER ERROR or NOT IMPLEMENTED |
| HttpResponse.ParseFormat | webserver.py:75-85 | reading a formatted response back yields its code and, whatever the body contains, exactly its body |
| HttpResponse.FormatParse | webserver.py:75-85 | every text the reader accepts is the formatter's output for the code and body it reads |
| HttpResponse.BodyAfterFirstBlankLine | webserver.py:76-85 | the status line holds no line feed, so the body is the text after the first blank line |
| WebServer.ParseRequestLine | webserver.py:36-38 | the request line unpacks when its first line splits into exactly three tokens, and otherwise raises with the token count |
| WebServer.ParseRequestLineOf | webserver.py:37-38 | `m t v` ended by a line feed or by the end parses into method `m`, page `t` and version `v`, whatever follows |
| WebServer.ParseRequestLineSpaced | webserver.py:37-38 | three words with any spacing on the first line (blanks, tabs, leading whitespace, a closing `\r`), ended by a line feed or the end, parse into method, page and version |
| WebServer.ParseRequestLineCR | webserver.py:37-38 | a carriage return ending the request line leaves the parse unchanged |
| WebServer.ParseRequestLineCRLF | webserver.py:37-38 | the line a client sends, `m t v` ended by `\r\n` or `\r` and the end, parses into method `m`, page `t` and version `v` |
| WebServer.ExtractPageInfo | webserver.py:58-68 | the page resolves exactly when it holds at most one `.` after the leading `/` is dropped; the file name is then non-empty and neither part holds `.` |
| WebServer.PageInfoWithoutDelimiter | webserver.py:60-68 | a page without `.` is the file name (or `index` if empty) with extension `html` |
| WebServer.PageInfoWithDelimiter | webserver.py:60-68 | a page `name.ext` yields `name` (or `index` if empty) and `ext` |
| WebServer.PageInfoDoubleDot | webserver.py:61 | a page holding `..` always fails the unpack |
| WebServer.PageInfoDefaults | webserver.py:60-66 | `/`, `/index` and `/index.html` all resolve to `index` and `html` |
| WebServer.PageInfoOneSlash | webserver.py:60 | only one leading `/` is removed: `//index` resolves to the file name `/index` |
| WebServer.FilePathConfined | webserver.py:53 | the opened path starts with `html/` and holds exactly one `.`, so it never contains `..` |
| WebServer.FilePathReadsBack | webserver.py:53 | the opened path `html/<filename>.<ext>` starts with `html/`, and for a dot-free file name and extension both split back out of the rest of it at its one `.` |
| WebServer.Dispatch | webserver.py:40-56 | only codes 200, 404 and 501 are answered; the unpack error happens exactly for a GET without `?` whose page has two or more `.` |
| WebServer.ProcessRequest | webserver.py:36-56 | every returned value is a response (never `None`) that reads back as a well-formed status line and body; it raises exactly when the request line or the page fails to unpack |
| WebServer.MalformedRequestLineRaises | webserver.py:38 | a first line without exactly three tokens raises with the number of tokens found |
| WebServer.OtherMethodNotImplemented | webserver.py:40-43 | for every request whose line unpacks, any method but GET is answered 501 `<method> not implemented` whatever the page and the files, and no file is opened |
| WebServer.QueryNotImplemented | webserver.py:45-48 | for every request whose line unpacks, a GET whose page holds `?` is answered 501 `Query string not implemented` and no file is opened |
| WebServer.GetReadsFile | webserver.py:50-56 | for every request whose line unpacks, any other GET with a resolvable page opens `html/<filename>.<ext>` and answers 200 with the file's text if present, else 404 `File Not Found` |
| WebServer.DoubleDotRaises | webserver.py:50-61 | for every request whose line unpacks, a GET without `?` whose page holds `..` raises and opens no file |
| WebServer.DefaultPageAliases | webserver.py:50-66 | any requests whose lines are `GET /`, `GET /index` and `GET /index.html` (any version, any spacing) all open `html/index.html` and get the same response |
| WebServer.ClientGetReadsFile | webserver.py:37-56 | a client's `GET t v\r\n…` with a resolvable page and no `?` answers 200 with the file's text if `html/<filename>.<ext>` exists, else 404 |
| WebServer.ClientOtherMethodNotImplemented | webserver.py:37-43 | a client's `m t v\r\n…` with `m` other than GET is answered 501 `<m> not implemented` |
| WebServer.LookupPath | webserver.py:40-53 | a file is opened exactly when the request line unpacks, the method is GET, the page has no `?` and it has at most one `.` after the leading `/`; that path lies under `html/` |
| WebServer.ReadsOnlyLookupPath | webserver.py:40-56 | the response depends on the files only through the one path opened; a request that opens nothing gets the same answer for any files |
| WebServer.LookupConfined | webserver.py:50-53 | every opened path lies under `html/` and contains no `..` |

## Left out

- Socket creation, bind/listen, the accept loop and per-connection send and close (webserver.py:11-34). These are blocking network I/O with no decisions in them.
- `recv(1024)` truncation and the UTF-8 decode and encode of request and response (webserver.py:30, webserver.py:32). The model starts from an already-decoded request string.
- Real file opening and reading (webserver.py:53-54). These are replaced by a lookup in the `FileSystem` map, keyed by the exact path string, so the operating system's path normalisation is not modelled (`html//index.html` and `html/index.html` are different keys).
- Failures of `open` other than a missing file are not modelled. These include a directory, missing permissions, a NUL character in the path, an over-long name, a decode error while reading and text-mode newline translation. The source does not catch them.
- The unused `query` variable (webserver.py:47). It has no observable effect.
- `DEFAULT_HOST`, `DEFAULT_PORT` and the `__main__` entry point (webserver.py:8-9, webserver.py:88-89). They only configure the socket.
- app.py is not part of this model. It registers routes through `route` and `render_template`, which `webserver.py` does not define.
