# public_folders: a verified model of the mount registry, resolver and responder

`public_folders/index.js` is a small Node.js file server. At startup it reads
a list of `url:path` entries and builds a tree of URL segments in which a
node may carry the directory mounted at that prefix. For every request it
cuts the URL into segments and walks the tree. The deepest node on the walk
that carries a directory decides which directory serves the request, and the
segments after that node are the path inside it. The server then answers:
- a plain-text error for a missing mount or an inaccessible file;
- 403 for a directory when listing is off;
- an HTML listing for a directory when listing is on;
- the file itself, streamed as a download.

This project models that core in Dafny and proves what it does.

- `options.dfy`: `Option`.
- `text.dfy` (module `Text`): the JavaScript string operations the server
  relies on.
  - `split` with a one-character separator, which keeps empty pieces, and
    `join`.
  - The decimal rendering of a number in a template literal or a header
    value.
  - `Buffer.byteLength`, the length of a string in UTF-8.
  - Their round trips: join after split, split after join, and reading back
    a rendered number.
- `registry.dfy` (module `Registry`): the mount tree.
  - The tree is an arena of nodes. Node 0 is the root, and a node's
    children map a segment to a node index.
  - Parsing and checking one configuration entry.
  - The class `MountRegistry`, whose methods grow the arena in place as the
    source's loops do.
  - The abstract view `MountAt`: the directory mounted at a segment path.
    `ConfigMount` states what that view should be for a given configuration.
- `resolver.dfy` (module `Resolver`): request segments, the reference
  selection `Select`, and the imperative walk `Walk`/`Resolve`, proved
  equal to `Select`.
- `responder.dfy` (module `Responder`): the error responder, the directory
  listing and the status/header/body decision. The file system's answer is
  a value (`Stat`): `fs.stat` failed with a code, a directory (with what
  `fs.readdir` gives), or a file of some size. `Handle` ties resolution and
  response together, and takes the file system as a function parameter.

The source has two behaviours that look odd and are kept as written:
- The configuration check is an unanchored regular expression, so a single
  allowed character anywhere in the URL and the directory is enough to
  accept an entry.
- A configured URL with a slash at either end registers under an empty
  segment. Request segments are never empty, so no request can reach it
  (`Resolver.SlashEdgedMountUnreachable`).

## Model

| member | source | states |
|---|---|---|
| Text.Split | public_folders/index.js:36 | `String.prototype.split` with a one-character separator gives at least one piece; what the pieces are is stated by `SplitPieces`, `JoinSplit`, `SplitJoin` and `SplitConcat` |
| Text.JoinWith | public_folders/index.js:103 | `Array.prototype.join`; `JoinSplit` and `SplitJoin` prove it the inverse of `Split`, and `JoinWithAppend` states what one more element adds |
| Text.JoinWithAppend | public_folders/index.js:103 | joining one more element adds exactly the separator and that element at the end, and nothing before a single element |
| Text.SplitPieces | public_folders/index.js:36 | no piece of `split` contains the separator; there are at least two pieces exactly when the string contains it |
| Text.JoinSplit | public_folders/index.js:24 | joining the pieces of a split with the separator gives back the original string, so the fields of an entry are consecutive slices of it |
| Text.SplitJoin | public_folders/index.js:36 | splitting a join of separator-free pieces gives back exactly those pieces |
| Text.SplitConcat | public_folders/index.js:66 | a separator between two strings splits them apart: the pieces of `a/b` are those of `a` followed by those of `b` |
| Text.DecimalRoundTrip | public_folders/index.js:51 | the decimal rendering of a number reads back as that number |
| Text.Decimal | public_folders/index.js:117-119 | the rendering of a number is a non-empty string of digits |
| Text.Utf8Length | public_folders/index.js:106 | the UTF-8 length of a string is between one and four bytes per character |
| Text.Utf8Append | public_folders/index.js:106 | the UTF-8 length of a concatenation is the sum of the lengths |
| Text.Utf8Ascii | public_folders/index.js:106 | a string has as many bytes as characters exactly when it is ASCII |
| Registry.RegexTest | public_folders/index.js:26-34 | the unanchored match succeeds exactly when some character of the string is in `[a-zA-Z\-_0-9\/\.]` |
| Registry.ParseEntry | public_folders/index.js:24 | the URL is the text before the first colon; the directory is the text from there to the second colon or the end; neither holds a colon |
| Registry.UrlField | public_folders/index.js:24 | `full_url`, the first field of the entry; `UrlPassesHasColon` states that a field that passes the check comes from an entry with a colon |
| Registry.UrlPassesHasColon | public_folders/index.js:24-31 | an entry the source can read whose URL field passes the check has a colon, so its directory field exists when it is checked |
| Registry.Accept | public_folders/index.js:23-34 | an entry without a colon is skipped; an entry with one is skipped exactly when its URL or its directory has no allowed character; an accepted entry has a colon and a non-empty directory |
| Registry.ConfigMount | public_folders/index.js:23-46 | a configured mount has a non-empty segment path and a non-empty directory |
| Registry.ConfigMountRegistered | public_folders/index.js:23-46 | a prefix is mounted exactly when some accepted entry's URL splits into it |
| Registry.ConfigMountLastWins | public_folders/index.js:44 | the last accepted entry for a URL decides the directory mounted there, whatever earlier entries set |
| Registry.AddChild | public_folders/index.js:38-41 | creating an empty child adds exactly one node; `AddChildLocate`, `AddChildMounts` and `Grow` state what it changes |
| Registry.Locate | public_folders/index.js:38-41 | a walk lands inside the arena, and the empty walk is the root |
| Registry.LocateMissExtends | public_folders/index.js:70 | once a step has no child, every longer walk has none |
| Registry.LocatedAtPrefix | public_folders/index.js:38-41 | a node is reached only by the path that created it, so each prefix has its own node |
| Registry.AddChildLocate | public_folders/index.js:38-41 | creating a child keeps the arena well formed and changes only walks that missed before, which now reach the new node |
| Registry.AddChildMounts | public_folders/index.js:38-41 | creating a child changes no mount |
| Registry.Grow | public_folders/index.js:41 | creating a child keeps the registry's invariant, and the walk one step further now ends at the new node |
| Registry.SetPathMounts | public_folders/index.js:44 | setting the directory of the node named `segs` changes the mount at `segs` and at no other prefix |
| Registry.MountRegistry.Extend | public_folders/index.js:36-42 | the lookup-or-create walk ends at the node for the segments; the invariant holds and no mount changes |
| Registry.MountRegistry.Register | public_folders/index.js:36-44 | after registering, the URL's segments are mounted with the directory, which overwrites any earlier one; every other mount is unchanged |
| Registry.MountRegistry.Load | public_folders/index.js:21-46 | the registry built from the entries mounts at every prefix exactly what the configuration says |
| Resolver.NonEmpty | public_folders/index.js:66 | the filter keeps exactly the non-empty elements |
| Resolver.RequestSegments | public_folders/index.js:66 | request segments are never empty and never contain a slash |
| Resolver.SegmentsRoundTrip | public_folders/index.js:66 | a URL `/s1/.../sn` built from segments is cut back into exactly those segments |
| Resolver.TrailingSlashIgnored | public_folders/index.js:66 | a trailing slash does not change the segments |
| Resolver.LeadingSlashIgnored | public_folders/index.js:66 | a leading slash does not change the segments |
| Resolver.DoubleSlashCollapses | public_folders/index.js:66 | a doubled slash reads as a single one |
| Resolver.DeepestIsDeepest | public_folders/index.js:68-77 | the chosen prefix carries a directory and no longer prefix up to the bound does; when none is chosen, no prefix carries one |
| Resolver.Select | public_folders/index.js:79-88 | a resolution's `location ++ parts` is the request's segments, `location` is non-empty, and the directory mounted at `location` is the non-empty root |
| Resolver.TailAfterMissIrrelevant | public_folders/index.js:68-77 | after a prefix with no node, the rest of the request does not change which mount is chosen |
| Resolver.UnknownFirstSegment | public_folders/index.js:70-85 | a request with no segments, or whose first segment is not a child of the root, is NotFound (an empty registry answers every request 404) |
| Resolver.LongestMountWins | public_folders/index.js:68-83 | a mounted prefix with no longer mounted prefix after it wins, with the rest as the residual, whatever shorter prefixes are mounted |
| Resolver.SlashEdgedMountUnreachable | public_folders/index.js:36-66 | no request resolves to a mount registered under a URL with a slash at either end |
| Resolver.WalkDescend | public_folders/index.js:70-74 | descending into a child moves the remembered position to it exactly when it carries a directory |
| Resolver.WalkMiss | public_folders/index.js:76 | stopping at a segment with no child leaves the remembered position final |
| Resolver.WalkStep | public_folders/index.js:69-76 | one shift of the walk either descends to the child and updates the record, or stops with the record final |
| Resolver.WalkResult | public_folders/index.js:79-85 | the final record is the selection: none means NotFound, otherwise its location, parts and directory |
| Resolver.Walk | public_folders/index.js:63-77 | the loop's remembered position equals the record of all the segments; when nothing is remembered, the node reached carries no directory |
| Resolver.Resolve | public_folders/index.js:63-85 | the handler's resolution is exactly the reference selection of the request's segments |
| Responder.ErrorBody | public_folders/index.js:51 | the body `Error <code>: <message>`; `ErrorBodyRoundTrip` proves it reads back as its code and message |
| Responder.ErrorBodyRoundTrip | public_folders/index.js:51 | the body `Error <code>: <message>` reads back as its code and message, whatever the message |
| Responder.ErrorResponse | public_folders/index.js:49-51 | an error has the given status, a text/plain type, and a body from which code and message read back |
| Responder.UserPath | public_folders/index.js:87 | `path.join(...location, ...parts)` as a `/`-join; `LinkTarget` proves that the href text of the listing's links built on it splits back into the listed segments |
| Responder.FilePath | public_folders/index.js:88 | `path.join(directory.path, ...parts)` as a `/`-join; `BasenameOfFilePath` proves its basename is the last residual segment |
| Responder.Basename | public_folders/index.js:113 | `path.basename`, the text after the last slash; `BasenameOfFilePath` states what it gives for a file path |
| Responder.BasenameOfFilePath | public_folders/index.js:113 | the download is named after the last residual segment |
| Responder.Href | public_folders/index.js:103 | the link target `/` + `path.join(userpath, file)`; `LinkTarget` proves that its text splits back into the listed directory's segments followed by the entry |
| Responder.Link | public_folders/index.js:103 | one `<a>` element showing the entry and pointing at its `Href`; `ListingAppend` places one per entry |
| Responder.Listing | public_folders/index.js:103 | the listing page; `ListingAppend` states its shape and `ContentLengthIsBodyLength` its announced length |
| Responder.ListingAppend | public_folders/index.js:103 | the listing is the heading followed by exactly one link per entry, separated by `<br>` |
| Responder.LinkTarget | public_folders/index.js:87-103 | the href text of the link to an entry, in the listing of the directory reached with `location` and `parts`, splits back as a request URL into exactly `location ++ parts` followed by the entry |
| Responder.Respond | public_folders/index.js:92-120 | ENOENT gives 404; another stat error gives 500; a directory gives 403 with listing off, 500 on a read error, and otherwise 200 with the listing, a text/html type and the body's UTF-8 length; a file gives 200 with an octet-stream type, the size as Content-Length and X-File-Size, and its basename as the download name; every error is text/plain with a body that reads back its status |
| Responder.ContentLengthIsBodyLength | public_folders/index.js:104-119 | every 200 answer announces a Content-Length that reads back as the byte length of the listing or the stat size of the file |
| Responder.Handle | public_folders/index.js:60-121 | a request without a mount gets 404 "Resource not found"; otherwise the answer is the decision for what the file system reports on the mount root joined with the residual segments |

## Left out

- The HTTP server and listener (public_folders/index.js:143-146) are transport. `Handle` stands for the handler.
- Reading `./data/options.json` and `PORT` (public_folders/index.js:8-15) is configuration I/O. The folder list and the listing flag are parameters.
- All console logging (public_folders/index.js:17-18, 27, 32, 45, 53-56, 61, 90, 110, 129, 136) only writes to the log.
- `fs.stat`, `fs.readdir` and the file stream (public_folders/index.js:92, 100, 122-137) are asynchronous I/O. The outcome is the value `Stat`, and the streamed body is `Streamed(filepath)`.
- The stream error handler (public_folders/index.js:124-130) runs after the 200 headers are sent, and its effect depends on Node's stream semantics.
- Responder.UserPath and Responder.FilePath join segments with `/` without `path.join`'s normalisation of `.`, `..`, repeated and trailing slashes. A residual `..` segment can therefore name a file outside the mounted directory in the source, and the model does not describe that.
- Responder.Basename takes the text after the last slash, without `path.basename`'s handling of a trailing slash.
- Responder.LinkTarget takes the href text verbatim as the request URL. HTML attribute parsing (a `"` ending the attribute, `&` entities) and the browser's URL encoding (percent-encoding of spaces and non-ASCII characters, dropping everything from a `#`) are not modelled. The server never decodes `req.url`, so an entry whose name such a step changes, for example `a b.txt`, is requested under another segment.
- Responder.Href joins the user path and the entry name with `/` without `path.join`'s normalisation.
- Children are a map of own keys only. JavaScript prototype keys such as `constructor` are truthy in the source's lookups (public_folders/index.js:38, 41, 70), and the model does not capture that.
- An entry without a colon whose text has an allowed character passes the URL check and then makes the source throw at the directory check (public_folders/index.js:24, 31). `Registry.Entries` requires every entry to have a colon or no allowed character. A colon-less entry without an allowed character is skipped, as in the source (public_folders/index.js:26-28).
- The `mime-types` import (public_folders/index.js:5) is unused.
- `req.url` is split as given. A `?` gets no special treatment: a query without `/` stays part of the last segment, and a `/` inside a query splits it like any other slash, so its pieces take part in the walk. URL decoding is not modelled, as in the source.
- The response's header values are strings. The source passes `Buffer.byteLength(content)` and `stats.size` as numbers, which Node sends in decimal; `Text.Decimal` renders them.
