/** The response decision (public_folders/index.js:49-57, 85-121): the error
    responder, and what the handler answers once the request is resolved and
    the file system has reported on the resolved path. The file system is a
    parameter: `fs.stat` and `fs.readdir` become the value `Stat`, and the
    streamed file contents become the body `Streamed(path)`. */
module Responder {
  import opened Options
  import opened Text
  import opened Registry
  import opened Resolver

  /** What `fs.readdir` reports for a directory. */
  datatype DirRead = Listed(names: seq<string>) | ReadFailed

  /** What `fs.stat` reports: an error with its code, a directory (with what
      reading it would give), or anything else, served as a file of `size`
      bytes. */
  datatype Stat = StatFailed(code: string) | IsDirectory(read: DirRead) | NotDirectory(size: nat)

  /** The header object given to `res.writeHead`, by header name. */
  type Headers = map<string, string>

  /** The header `name` is sent with value `value`. */
  predicate HasHeader(headers: Headers, name: string, value: string)
  {
    name in headers && headers[name] == value
  }

  /** A body written at once, or the contents of a file streamed to the
      client. */
  datatype Body = Inline(text: string) | Streamed(file: string)

  datatype Response = Response(status: nat, headers: Headers, body: Body)

  /** The body `Error <code>: <message>` (public_folders/index.js:51). */
  function ErrorBody(code: nat, message: string): string
  {
    "Error " + Decimal(code) + ": " + message
  }

  /** Reads a body of the form `Error <digits>: <message>` back into its
      code and message. */
  function ParseErrorBody(body: string): Option<(nat, string)>
  {
    if |body| < 6 || body[..6] != "Error " then None
    else
      var rest := body[6..];
      var n := DigitRun(rest);
      if n == 0 || |rest| < n + 2 || rest[n..n + 2] != ": " then None
      else Some((DecimalValue(rest[..n]), rest[n + 2..]))
  }

  /** The error body is unambiguous: the code and the message can be read
      back from it, whatever the message says. */
  lemma ErrorBodyRoundTrip(code: nat, message: string)
    ensures ParseErrorBody(ErrorBody(code, message)) == Some((code, message))
  {
    var d := Decimal(code);
    var body := ErrorBody(code, message);
    assert body[..6] == "Error ";
    var rest := body[6..];
    assert rest == d + (": " + message);
    DigitRunOf(d, ": " + message);
    assert rest[..|d|] == d;
    assert rest[|d|..|d| + 2] == ": ";
    assert rest[|d| + 2..] == message;
    DecimalRoundTrip(code);
  }

  /** The error responder (public_folders/index.js:49-57): status `code`, a
      plain-text type and the body `Error <code>: <message>`. */
  function ErrorResponse(code: nat, message: string): (r: Response)
    ensures r.status == code
    ensures HasHeader(r.headers, "Content-Type", "text/plain")
    ensures r.body.Inline? && ParseErrorBody(r.body.text) == Some((code, message))
  {
    ErrorBodyRoundTrip(code, message);
    Response(code, map["Content-Type" := "text/plain"], Inline(ErrorBody(code, message)))
  }

  /** `path.join(...location, ...parts)`, the path shown to the user,
      without the normalisation of `.` and `..`. */
  function UserPath(location: seq<string>, parts: seq<string>): string
  {
    JoinWith(location + parts, "/")
  }

  /** `path.join(directory.path, ...parts)`, the file looked up, without the
      normalisation of `.` and `..`. */
  function FilePath(root: string, parts: seq<string>): string
  {
    JoinWith([root] + parts, "/")
  }

  /** `path.basename(p)`: the text after the last slash. */
  function Basename(p: string): string
  {
    var pieces := Split(p, '/');
    pieces[|pieces| - 1]
  }

  /** The basename of a file path with residual segments is its last
      segment, so the download is named after the requested file. */
  lemma BasenameOfFilePath(root: string, parts: seq<string>)
    requires parts != [] && '/' !in parts[|parts| - 1]
    ensures Basename(FilePath(root, parts)) == parts[|parts| - 1]
  {
    var n := |parts| - 1;
    var front := [root] + parts[..n];
    assert [root] + parts == front + [parts[n]];
    JoinWithAppend(front, parts[n], "/");
    var joined := JoinWith(front, "/");
    assert FilePath(root, parts) == joined + ['/'] + parts[n];
    SplitConcat(joined, parts[n], '/');
    SplitAtom(parts[n], '/');
  }

  /** The target of the link to entry `name` of the directory shown as
      `userpath`: `/` followed by `path.join(userpath, name)`, without the
      normalisation (public_folders/index.js:103). */
  function Href(userpath: string, name: string): string
  {
    "/" + userpath + "/" + name
  }

  /** One entry of the listing: a link to `Href(userpath, name)` showing
      `name` (public_folders/index.js:103). */
  function Link(userpath: string, name: string): string
  {
    "<a href=\"" + Href(userpath, name) + "\">" + name + "</a>"
  }

  /** `files.map(...)`: the links to the entries, in order. */
  function Links(userpath: string, names: seq<string>): seq<string>
  {
    seq(|names|, i requires 0 <= i < |names| => Link(userpath, names[i]))
  }

  /** The listing page: `Directory: <userpath><br>` and then the links to the
      entries, separated by `<br>` (public_folders/index.js:103). */
  function Listing(userpath: string, names: seq<string>): string
  {
    "Directory: " + userpath + "<br>" + JoinWith(Links(userpath, names), "<br>")
  }

  /** Each entry adds exactly one link, after the links to the entries
      before it and separated from them by `<br>`; an empty directory lists
      the heading alone. */
  lemma ListingAppend(userpath: string, names: seq<string>, name: string)
    ensures Listing(userpath, []) == "Directory: " + userpath + "<br>"
    ensures Listing(userpath, names + [name]) ==
      Listing(userpath, names) + (if names == [] then "" else "<br>") + Link(userpath, name)
  {
    assert Links(userpath, names + [name]) == Links(userpath, names) + [Link(userpath, name)];
    JoinWithAppend(Links(userpath, names), Link(userpath, name), "<br>");
    if names == [] {
      assert Links(userpath, names) == [];
    }
  }

  /** The href text of the link to `name`, in the listing of the directory
      reached with `location` and `parts`, splits back, as a request URL is
      split, into exactly those segments followed by `name`. The text is
      taken as the request URL verbatim. */
  lemma LinkTarget(location: seq<string>, parts: seq<string>, name: string)
    requires forall i :: 0 <= i < |location + parts| ==> (location + parts)[i] != "" && '/' !in (location + parts)[i]
    requires location != [] && name != "" && '/' !in name
    ensures RequestSegments(Href(UserPath(location, parts), name)) == location + parts + [name]
  {
    var segs := location + parts;
    var all := segs + [name];
    forall i | 0 <= i < |all| ensures all[i] != "" && '/' !in all[i] {
      if i < |segs| { assert all[i] == segs[i]; }
    }
    JoinWithAppend(segs, name, "/");
    var joined := JoinWith(segs, "/");
    assert "/" + joined + "/" + name == "/" + (joined + "/" + name);
    SegmentsRoundTrip(all);
  }

  /** The status, headers and body once the resolved path has been looked
      at (public_folders/index.js:92-121). A stat error is 404 when the code
      is ENOENT and 500 otherwise; a directory is 403 when listing is off,
      500 when it cannot be read, and otherwise 200 with the listing; anything
      else is 200 with the file. */
  function Respond(listDirs: bool, userpath: string, filepath: string, stat: Stat): (r: Response)
    ensures r.status == 404 <==> stat.StatFailed? && stat.code == "ENOENT"
    ensures r.status == 500 <==>
      || (stat.StatFailed? && stat.code != "ENOENT")
      || (stat.IsDirectory? && listDirs && stat.read.ReadFailed?)
    ensures r.status == 403 <==> stat.IsDirectory? && !listDirs
    ensures r.status == 200 <==> stat.NotDirectory? || (stat.IsDirectory? && listDirs && stat.read.Listed?)
    ensures r.status != 200 ==>
      && HasHeader(r.headers, "Content-Type", "text/plain")
      && r.body.Inline? && ParseErrorBody(r.body.text).Some? && ParseErrorBody(r.body.text).value.0 == r.status
    ensures r.status == 200 && stat.IsDirectory? ==>
      && HasHeader(r.headers, "Content-Type", "text/html")
      && r.body == Inline(Listing(userpath, stat.read.names))
      && HasHeader(r.headers, "Content-Length", Decimal(Utf8Length(r.body.text)))
    ensures stat.NotDirectory? ==>
      && HasHeader(r.headers, "Content-Type", "application/octet-stream")
      && r.body == Streamed(filepath)
      && HasHeader(r.headers, "Content-Length", Decimal(stat.size))
      && HasHeader(r.headers, "X-File-Size", Decimal(stat.size))
      && HasHeader(r.headers, "Content-Disposition", "attachment; filename=\"" + Basename(filepath) + "\"")
  {
    match stat
    case StatFailed(code) =>
      ErrorResponse(if code == "ENOENT" then 404 else 500, "File not accessible")
    case IsDirectory(read) =>
      if !listDirs then ErrorResponse(403, "Directory listing is disabled.")
      else if read.ReadFailed? then ErrorResponse(500, "Directory read error")
      else
        var content := Listing(userpath, read.names);
        Response(200,
          map["Content-Type" := "text/html", "Content-Length" := Decimal(Utf8Length(content))],
          Inline(content))
    case NotDirectory(size) =>
      var filename := Basename(filepath);
      Response(200,
        map[
          "Content-Type" := "application/octet-stream",
          "Content-Length" := Decimal(size),
          "Content-Disposition" := "attachment; filename=\"" + filename + "\"",
          "X-File-Size" := Decimal(size)],
        Streamed(filepath))
  }

  /** Every successful response announces a Content-Length that reads back
      as the length of what is sent: the UTF-8 byte count of the listing, or
      the size stat reported for the file. */
  lemma ContentLengthIsBodyLength(listDirs: bool, userpath: string, filepath: string, stat: Stat)
    ensures var r := Respond(listDirs, userpath, filepath, stat);
      r.status == 200 ==>
        && "Content-Length" in r.headers
        && var length := r.headers["Content-Length"];
        && DigitRun(length) == |length|
        && DecimalValue(length) == (if r.body.Inline? then Utf8Length(r.body.text) else stat.size)
  {
    var r := Respond(listDirs, userpath, filepath, stat);
    if r.status == 200 {
      if r.body.Inline? {
        DecimalRoundTrip(Utf8Length(r.body.text));
      } else {
        DecimalRoundTrip(stat.size);
      }
    }
  }

  /** The request handler (public_folders/index.js:60-121): resolve the
      request URL against the registry; answer 404 "Resource not found" when
      no mount matches; otherwise build the user path and the file path and
      answer from what the file system reports on the file path. */
  method Handle(nodes: seq<Node>, url: string, listDirs: bool, fs: string -> Stat) returns (r: Response)
    requires WellFormed(nodes)
    ensures var res := Select(nodes, RequestSegments(url));
      && (res.NotFound? ==> r == ErrorResponse(404, "Resource not found"))
      && (res.Resolved? ==>
            var filepath := FilePath(res.root, res.parts);
            r == Respond(listDirs, UserPath(res.location, res.parts), filepath, fs(filepath)))
  {
    var res := Resolve(nodes, url);
    if res.NotFound? {
      return ErrorResponse(404, "Resource not found");
    }
    var userpath := UserPath(res.location, res.parts);
    var filepath := FilePath(res.root, res.parts);
    r := Respond(listDirs, userpath, filepath, fs(filepath));
  }
}
