# File browser request handler: a Dafny model

This project models the request handler of a small HTTP file browser
(`RequestHandler.go`). The browser serves a tree of numbered directories and
files below `./files/`. The model covers:

- the regular-expression guard every request path has to pass;
- the string utilities that compute a page's public path, title and parent link;
- the pager that cuts a directory listing into pages of five entries;
- the reader that pulls the requested page out of the raw query string;
- the construction of a directory page's child links;
- the decision the handlers make for each request: not found, redirect, error
  page, directory page, file page, nothing written, or a runtime failure.

Modules, one per concern:

| module | file | models |
|---|---|---|
| `Text` | `text.dfy` | `strings.HasPrefix`/`HasSuffix`/`TrimPrefix`/`TrimSuffix`/`Split` for a one-character separator |
| `Paths` | `paths.dfy` | `validPath`/`isValidPath`, `getSubPath`, `getParentPath`, `urlFromPath` |
| `Pager` | `pager.dfy` | `pagingLimit`, `getPagingSlice` |
| `Queries` | `queries.dfy` | `getQueries`, with `strconv.Atoi` restricted to plain digits |
| `Links` | `links.dfy` | `DirectoryInfo`, `getDirectoryInfo` |
| `Handler` | `handler.dfy` | `File`, `Directory`, `pageHandler`, `directoryHandler`, `fileHandler`, `loadFile`, `redirectToRoot`, the two routes of `main` |

How the pieces are modelled:

- **Path guard.** The pattern is written as a recursive recogniser with one
  predicate per state: `IsValidPath`, `AfterRoot`, `AfterSlash` and `InSegment`.
  It is paired with an independent reference grammar. A `Route` is a list of
  numeric segments and an ending: nothing, `/`, or `?page=N`. `Render` turns a
  route into a path. `ValidPathIffRoute` proves that the recogniser accepts
  exactly the renderings of well-formed routes, and `Parse` recovers the route.
- **Imperative code.** The three functions that update variables step by step
  are methods. Each is proved against a specification function:
  - `GetQueries` (a loop) against `QueryPage`;
  - `GetPagingSlice` against `Page`;
  - `GetDirectoryInfo` (a freshly allocated array filled index by index) against
    `Entries`.
- **Handlers.** `Handler.Serve`, `PageHandler`, `DirectoryHandler` and
  `FileHandler` are pure functions. They take the request path, the raw query
  and an abstract file system, and return a `Response`.
  - The file system is a map from path to node. A node is a directory with its
    listing or listing error, a regular file with its contents or read error,
    another kind of entry, or a stat error other than "does not exist". A path
    absent from the map does not exist.
  - A rendered template is represented by the record handed to it.
  - Where the Go code fails at run time, the response is `Aborted(fault)`.
  - A listing error renders the error page and then carries on with the
    directory page, because the source does not return there. This is
    `ErrorPageThen(error, rest)`.

Behaviour of the code that the model keeps as written:

- **Pager bounds.** `getPagingSlice` does not clamp. A page number below 1, or
  one whose first entry lies past the end of the listing, makes the slice
  expression panic. The model states this as the precondition `PageInRange` of
  `Page` and `GetPagingSlice`. In the dispatch it becomes the outcome
  `Aborted(PageOutOfRange)`.
- **Page value.** `getQueries` reads `Split(piece, "=")[1]`. That is the text
  between the first and the second `=`, not everything after the first `=`. A
  bare `page` piece with no `=` indexes out of range
  (`Aborted(NoPageValue)`).
- **The query is never checked by the guard.** `r.URL.Path` never holds the
  query, so the `?page=` alternative of the guard never applies to the real
  query. A request such as `/files/1?page=0` or `/files/1?page=x` passes the guard.
  Its page reads as 0, and the pager then fails (`ZeroPageAborts`).
- **Parent of a trailing-slash path.** For a path ending with `/`,
  `getParentPath` returns the path itself, because the trimmed suffix does not
  match (`TrailingSlashParentIsPath`).
- **Sub-path of the empty path.** `getSubPath("")` indexes out of range. The
  branch `pathLen == 0` cannot be taken, because `strings.Split` always returns
  at least one piece. `SubPath` therefore requires a non-empty path.
- **Redirect targets are relative.** Both branches of `directoryHandler` pass
  `?page=1` to `http.Redirect`, which resolves it against the directory part of
  the request path: for `/files/1` that leads to the root's listing, not to
  `/files/1`'s first page. The model keeps the argument as given (see
  "## Left out").
- **Stat errors.** A stat error other than "does not exist" falls through to
  `fileStat.Mode()` on a nil result (`Aborted(NilFileInfo)`).

## Model

All source paths are in `src/github.com/chasemoudry/server/`.

| member | source | states |
|---|---|---|
| Text.TrimPrefix | src/github.com/chasemoudry/server/RequestHandler.go:59-61 | with the prefix present, prefix + result is the input; otherwise the input is returned unchanged |
| Text.TrimSuffix | src/github.com/chasemoudry/server/RequestHandler.go:71-73 | with the suffix present, result + suffix is the input; otherwise the input is returned unchanged |
| Text.Split | src/github.com/chasemoudry/server/RequestHandler.go:46 | at least one piece, no piece holds the separator, and joining the pieces with the separator gives back the input |
| Text.SplitUnique | src/github.com/chasemoudry/server/RequestHandler.go:46 | any separator-free pieces that join to the input are its split, so the three facts above determine `strings.Split` |
| Text.LastPieceIsSuffix | src/github.com/chasemoudry/server/RequestHandler.go:46-56 | the last piece is the input's end after its last separator; what precedes it is empty exactly when there is one piece, and otherwise ends with the separator |
| Paths.Parse | src/github.com/chasemoudry/server/RequestHandler.go:43 | every path the recogniser accepts is the rendering of a well-formed route (completeness of the recogniser against the grammar) |
| Paths.RenderIsValid | src/github.com/chasemoudry/server/RequestHandler.go:43 | every well-formed route renders to a path the recogniser accepts (soundness) |
| Paths.ValidPathIffRoute | src/github.com/chasemoudry/server/RequestHandler.go:67-69 | `isValidPath(p)` holds if and only if `p` is `./files` and numeric segments, with nothing, a trailing `/`, or (after at least one segment) `?page=N` for `N` in `[1-9][0-9]*` |
| Paths.ValidPathIsSafe | src/github.com/chasemoudry/server/RequestHandler.go:43 | after `./files` a valid path holds no `.`, no `//`, and a `?` only as `?page=` followed by a page number without a leading zero |
| Paths.RejectedExamples | src/github.com/chasemoudry/server/RequestHandler.go:67-69 | the guard rejects `./files/../1`, `./files/a`, `./files//1`, `?page=0`, `?page=01`, `./files/?page=1`, `./files?page=1` and `files/1` |
| Paths.SubPath | src/github.com/chasemoudry/server/RequestHandler.go:45-57 | the sub-path of a non-empty path never contains `/` |
| Paths.ParentThenSubPath | src/github.com/chasemoudry/server/RequestHandler.go:71-73 | without a trailing `/`, the sub-path is non-empty, parent path + sub-path is the path, and the parent is empty or ends with `/` |
| Paths.TrailingSlashParentIsPath | src/github.com/chasemoudry/server/RequestHandler.go:71-73 | with a trailing `/`, the parent path is the path itself |
| Paths.SubPathIgnoresTrailingSlash | src/github.com/chasemoudry/server/RequestHandler.go:51-56 | appending `/` selects the second-to-last piece, which is the same sub-path as before |
| Paths.SubPathOfChild | src/github.com/chasemoudry/server/RequestHandler.go:71-73 | for `dir/name` with a plain name, the sub-path is the name and the parent is `dir/` |
| Paths.UrlFromPathIdempotent | src/github.com/chasemoudry/server/RequestHandler.go:59-61 | `urlFromPath` applied twice equals applying it once, on paths not starting with `././` |
| Paths.UrlFromValidPath | src/github.com/chasemoudry/server/RequestHandler.go:59-61 | for a valid path exactly the leading `./` is removed, and the result starts with `files` |
| Paths.ParentOfValidPath | src/github.com/chasemoudry/server/RequestHandler.go:71-73 | the parent of a valid path below `./files/` is itself valid, below `./files/`, and ends with `/` |
| Paths.IsValidPath | src/github.com/chasemoudry/server/RequestHandler.go:67-69 | no ensures; the recogniser of the pattern at line 43, characterised by `Paths.ValidPathIffRoute`, `Paths.ValidPathIsSafe` and `Paths.RejectedExamples` |
| Paths.ParentPath | src/github.com/chasemoudry/server/RequestHandler.go:71-73 | the parent is a prefix of the path, and is either the path itself or what precedes the sub-path |
| Paths.UrlFromPath | src/github.com/chasemoudry/server/RequestHandler.go:59-61 | a leading `./` is removed exactly once; any other path is returned unchanged |
| Pager.Page | src/github.com/chasemoudry/server/RequestHandler.go:88-96 | the page holds at most 5 entries, exactly 5 when the window fits, and otherwise the rest of the listing; entry `i` of the page is entry `(n-1)*5 + i` of the listing |
| Pager.GetPagingSlice | src/github.com/chasemoudry/server/RequestHandler.go:88-96 | the method's result is `Page(targetDir, pageNum)` on both of its branches |
| Pager.PageRange | src/github.com/chasemoudry/server/RequestHandler.go:88-96 | the slice bounds hold exactly for page numbers 1 through `count / 5 + 1` |
| Pager.FirstPagesArePrefix | src/github.com/chasemoudry/server/RequestHandler.go:88-96 | pages 1 through `k` together are the first `5k` entries (or all of them): nothing is skipped or repeated |
| Pager.EntryOnItsPage | src/github.com/chasemoudry/server/RequestHandler.go:88-96 | entry `j` is on page `j / 5 + 1`, at position `j % 5` |
| Pager.TwelveEntries | src/github.com/chasemoudry/server/RequestHandler.go:88-96 | with 12 entries, page 1 is the first five, page 3 the last two, and page 4 is out of range |
| Queries.Atoi | src/github.com/chasemoudry/server/RequestHandler.go:106 | anything that is not a numeral reads as 0 |
| Queries.AtoiDecimal | src/github.com/chasemoudry/server/RequestHandler.go:106 | reading back the decimal spelling of `n` gives `n` |
| Queries.PageNumberIsPositive | src/github.com/chasemoudry/server/RequestHandler.go:106 | a page number the guard admits (`[1-9][0-9]*`) reads as at least 1 |
| Queries.DecimalIsPageNumber | src/github.com/chasemoudry/server/RequestHandler.go:43 | the decimal spelling of every positive number is a page number the guard admits |
| Queries.GetQueries | src/github.com/chasemoudry/server/RequestHandler.go:98-110 | the loop returns the value of the last `page` piece, or 0 when there is none (`QueryPage`) |
| Queries.LastPageStep | src/github.com/chasemoudry/server/RequestHandler.go:101-108 | one more piece: a `page` key overwrites the page, any other key leaves it unchanged |
| Queries.ReadableExactly | src/github.com/chasemoudry/server/RequestHandler.go:102-106 | the only piece whose `currentQuery[1]` is out of range is the bare key `page` |
| Queries.PagePiece | src/github.com/chasemoudry/server/RequestHandler.go:102-106 | `page=N` has key `page` and value `N` |
| Queries.AppendPiece | src/github.com/chasemoudry/server/RequestHandler.go:101-108 | appending `&piece`: a `page` piece sets the page to its value; any other key leaves the page of the rest |
| Queries.PageSettingPiece | src/github.com/chasemoudry/server/RequestHandler.go:102-106 | `page=` and a spelled-out number is a readable `page` piece, holds no `&`, and has that spelling as its value |
| Queries.SinglePageQuery | src/github.com/chasemoudry/server/RequestHandler.go:98-110 | the query `page=N` alone asks for page `N` |
| Queries.LastPageKeyWins | src/github.com/chasemoudry/server/RequestHandler.go:98-110 | `&page=N` after any readable query selects page `N`: the last `page` key wins |
| Queries.NoPageKey | src/github.com/chasemoudry/server/RequestHandler.go:98-110 | without a `page` key every piece is readable and the page is 0 |
| Queries.Key | src/github.com/chasemoudry/server/RequestHandler.go:102-104 | no ensures; the first `=`-piece, characterised by `Queries.PagePiece` and `Queries.ReadableExactly` |
| Queries.Value | src/github.com/chasemoudry/server/RequestHandler.go:105-106 | no ensures; the second `=`-piece, characterised by `Queries.PagePiece` and `Queries.PageSettingPiece` |
| Queries.QueryPage | src/github.com/chasemoudry/server/RequestHandler.go:98-110 | no ensures; the specification `Queries.GetQueries` is proved against, characterised by `Queries.AppendPiece`, `Queries.LastPageKeyWins`, `Queries.SinglePageQuery` and `Queries.NoPageKey` |
| Links.Entries | src/github.com/chasemoudry/server/RequestHandler.go:75-86 | one entry per name, in order: its sub-path is the name, and its full path is `path + name` for the root and `path + "/" + name` otherwise |
| Links.GetDirectoryInfo | src/github.com/chasemoudry/server/RequestHandler.go:75-86 | the freshly allocated array holds exactly `Entries(path, names)` |
| Links.ChildPath | src/github.com/chasemoudry/server/RequestHandler.go:78-82 | no ensures; the full path of one child, characterised by `Links.Entries`, `Links.ChildRoundTrip` and `Links.ChildOfValidDirectory` |
| Links.ChildRoundTrip | src/github.com/chasemoudry/server/RequestHandler.go:78-83 | a child link's sub-path is the name, and its parent path is the directory with a trailing `/` |
| Links.ExtendRoute | src/github.com/chasemoudry/server/RequestHandler.go:81 | a numeric name after a route's segments is a well-formed route rendering to `dir/name` |
| Links.ChildOfValidDirectory | src/github.com/chasemoudry/server/RequestHandler.go:78-83 | numeric children of the root, or of a segment path without a trailing `/`, get valid links |
| Links.TrailingSlashChildIsInvalid | src/github.com/chasemoudry/server/RequestHandler.go:80-82 | below `./files/1/` the link `./files/1//2` fails the guard |
| Handler.PageHandler | src/github.com/chasemoudry/server/RequestHandler.go:194-225 | no ensures; characterised by `Handler.InvalidPathIsNotFound`, `Handler.MissingPathIsErrorPage`, `Handler.DirectoryPageShape`, `Handler.ErrorPagesAreTitledError` |
| Handler.DirectoryHandler | src/github.com/chasemoudry/server/RequestHandler.go:120-154 | no ensures; characterised by `Handler.DirectoryWithoutQueryRedirects`, `Handler.DirectoryPageServed`, `Handler.ZeroPageAborts` |
| Handler.FileHandler | src/github.com/chasemoudry/server/RequestHandler.go:164-192 | no ensures; `fileHandler` with `loadFile`, characterised by `Handler.ServedFilePage` and `Handler.FileRecordInvariants` |
| Handler.RedirectToRoot | src/github.com/chasemoudry/server/RequestHandler.go:227-230 | no ensures; characterised by `Handler.OutsideFilesRedirectsToRoot` |
| Handler.Serve | src/github.com/chasemoudry/server/RequestHandler.go:232-234 | no ensures; the two routes, characterised by `Handler.OutsideFilesRedirectsToRoot`, `Handler.RootRedirects`, `Handler.ServedDirectoryPage`, `Handler.ServedFilePage` |
| Handler.InvalidPathIsNotFound | src/github.com/chasemoudry/server/RequestHandler.go:196-202 | an invalid path is answered with 404, whatever the file system holds |
| Handler.MissingPathIsErrorPage | src/github.com/chasemoudry/server/RequestHandler.go:203-213 | a valid path that does not exist gets the error page: path = request path, title `Error`, the parent of the file path, and the stat message |
| Handler.DirectoryWithoutQueryRedirects | src/github.com/chasemoudry/server/RequestHandler.go:122-134 | a directory requested without a query is answered with a redirect whose target argument is `?page=1` |
| Handler.OutsideFilesRedirectsToRoot | src/github.com/chasemoudry/server/RequestHandler.go:227-230 | every request path not under `/files/` is redirected to `/files/` |
| Handler.RootRedirects | src/github.com/chasemoudry/server/RequestHandler.go:233-234 | `/` is redirected to `/files/` |
| Handler.ErrorPagesAreTitledError | src/github.com/chasemoudry/server/RequestHandler.go:194-225 | every error page the handlers render is titled `Error` |
| Handler.DirectoryPageShape | src/github.com/chasemoudry/server/RequestHandler.go:135-153 | a directory page is rendered only for an existing, listed directory with a readable, non-empty query whose page is in range; its record is path = `urlFromPath`, title = `getSubPath`, parent = `getParentPath`, and the links of that page |
| Handler.DirectoryPageServed | src/github.com/chasemoudry/server/RequestHandler.go:135-153 | `page=N` for a listed directory renders page `N` whenever `1 <= N <= count / 5 + 1` |
| Handler.ZeroPageQuery | src/github.com/chasemoudry/server/RequestHandler.go:106 | `page=v` with a value reading as 0 (non-numeric, or `0`) asks for page 0 |
| Handler.ZeroPageAborts | src/github.com/chasemoudry/server/RequestHandler.go:135-145 | a directory request whose page value reads as 0 ends in the pager's out-of-range failure, after the error page if the listing failed |
| Handler.RequestPathFacts | src/github.com/chasemoudry/server/RequestHandler.go:149-153 | for a request under `/files/` that passes the guard: the public path is the request path without its leading `/`, and the parent path is valid, below `./files/` and ends with `/` |
| Handler.RequestUrl | src/github.com/chasemoudry/server/RequestHandler.go:150 | the public path is the request path without its leading `/`, and starts with `files/` |
| Handler.RequestParent | src/github.com/chasemoudry/server/RequestHandler.go:152 | the parent path is valid, below `./files/` and ends with `/` |
| Handler.DirectoryRecordInvariants | src/github.com/chasemoudry/server/RequestHandler.go:149-153 | a directory record has at most 5 links, no `./` in its path, a valid parent ending with `/`, and a title without `/`; for plain names every link's sub-path is its name and its parent is the listed directory |
| Handler.PageLinksReturn | src/github.com/chasemoudry/server/RequestHandler.go:149-153 | for plainly named entries every link of a page has the entry's name as sub-path and the listed directory (with `/`) as parent |
| Handler.ServedDirectoryPage | src/github.com/chasemoudry/server/RequestHandler.go:194-225 | every directory page served under `/files/` is the directory record of the requested page |
| Handler.FileRecordInvariants | src/github.com/chasemoudry/server/RequestHandler.go:169-173 | a file record keeps the body, its path is the request path without `/`, its parent is valid, and without a trailing `/` parent + title is the file path |
| Handler.ServedFilePage | src/github.com/chasemoudry/server/RequestHandler.go:177-192 | a file page is rendered only for a regular file read successfully, with that file's record |

## Left out

- `main`, `http.HandleFunc` and `ListenAndServe` are network start-up. Only the routing decision between `/` and `/files/` is modelled (`Handler.Serve`).
- `net/http.ServeMux` path cleaning and its redirect of `/files` to `/files/` (status 301) are not modelled. `Serve` sends `/files` to the root redirect, which has the same target and a different status.
- URL decoding is not modelled: the request path is taken as decoded text.
- `renderFile` and `renderDirectory` call the external template engine. A rendered page is represented by its record. A template execution error (status 500) is not modelled.
- `os.Stat`, `ioutil.ReadDir` and `ioutil.ReadFile` are represented by the `FileSystem` snapshot. The snapshot is fixed during a request, and the "does not exist" message is one fixed text.
- The locale-dependent match of the read error's text is the `pathNotFound` flag of `LoadFailed`.
- Handler.FileHandler: a failed read that is not "path not found" renders the nil `*File`. In the source the template engine then reports an error. The model stops there with `Aborted(NilFile)` and does not describe the error response.
- The debug output written with `fmt.Println` and `fmt.Printf` is not modelled.
- `trimPathQueries` and the regular expressions `validFilePath` and `validDirectoryPath` are never used by the handler, so they are not modelled.
- Queries.Atoi: the `+`/`-` sign and integer overflow of `strconv.Atoi` are not modelled. Any text other than plain decimal digits reads as 0, and values are unbounded.
- Links.GetDirectoryInfo: the `fresh` part of its contract uses allocation. Its element-by-element result is stated through `Entries`.
- Directory listings are modelled as the names of their entries. The other fields of `os.FileInfo` play no part in the handler.
- `Listed(names)` admits any sequence of names. `ioutil.ReadDir` returns them sorted, unique, non-empty and without `/`. The link lemmas assume the last two as `PlainNames`; sorting and uniqueness are not modelled.
- The `FileSystem` map relates no two keys. In the operating system `./files/1/` fails to stat when `./files/1` is a regular file, and a directory's listing matches the entries below it; neither constraint is modelled.
- Handler.DirectoryHandler: `Redirect` holds the target as passed to `http.Redirect`, not the resolved `Location` header. `http.Redirect` resolves a relative target against the directory part of the request path, so for `/files/1` the client is sent to `/files/?page=1` (the root's listing) and for `/files/1/` to `/files/1/?page=1`. That resolution belongs to `net/http` and is not modelled.
