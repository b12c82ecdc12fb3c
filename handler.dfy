/**
 The request handling decisions of the file browser (`pageHandler`,
 `directoryHandler`, `fileHandler`, `loadFile`, `redirectToRoot` and the two
 routes of `main`), as a function from a request and an abstract file system to
 the response the server produces. Rendering a template is represented by the
 record handed to it.
 */
module Handler {
  import opened Text
  import opened Paths
  import opened Pager
  import opened Queries
  import opened Links

  newtype byte = x: int | 0 <= x < 256

  type Bytes = seq<byte>

  /** A file page, or the error page built in its shape. */
  datatype File = File(path: string, title: string, parentPath: string, body: Bytes)

  /** A directory listing page. */
  datatype Directory = Directory(path: string, title: string, parentPath: string, dir: seq<DirectoryInfo>)

  /** What listing a directory yields: the entry names in listing order, or an error text. */
  datatype Listing = Listed(names: seq<string>) | ListFailed(message: Bytes)

  /**
   What reading a file yields: its bytes, or an error text with whether the error
   counts as "path not found" (the source decides this by matching the text).
   */
  datatype Contents = Loaded(body: Bytes) | LoadFailed(message: Bytes, pathNotFound: bool)

  /** What `os.Stat` reports about a path that is present. */
  datatype Node =
    | DirNode(listing: Listing)
    | RegularNode(contents: Contents)
    | OtherNode                      // neither a directory nor a regular file
    | StatFailed(message: Bytes)     // a stat error other than "does not exist"

  /** The served tree: a path absent from `nodes` does not exist, and stat reports `notExist`. */
  datatype FileSystem = FileSystem(nodes: map<string, Node>, notExist: Bytes)

  /** Where the source stops with a runtime failure instead of writing a page. */
  datatype Fault =
    | NilFileInfo        // `fileStat.Mode()` on the nil result of a failed stat
    | NilFile            // rendering the nil `*File` of a failed read
    | NoPageValue        // `currentQuery[1]` of a bare `page` piece
    | PageOutOfRange     // the slice bounds of `getPagingSlice`

  datatype Response =
    | NotFound                               // `http.NotFound`
    | Redirect(target: string)               // `http.Redirect` with status 302, `target` as passed to it
    | ErrorPage(file: File)                  // the file template with an error record
    | DirectoryPage(directory: Directory)    // the directory template
    | FilePage(file: File)                   // the file template
    | NoResponse                             // nothing written
    | Aborted(fault: Fault)
    | ErrorPageThen(error: File, rest: Response)  // an error page, and then whatever follows

  /** The error record: the file template titled `Error` with the error text as body. */
  function ErrorFile(path: string, filePath: string, message: Bytes): File
    requires filePath != ""
  {
    File(path, "Error", ParentPath(filePath), message)
  }

  /** The directory record of one page of a listing. */
  function DirectoryRecord(filePath: string, files: seq<string>, currentPage: int): Directory
    requires filePath != "" && PageInRange(|files|, currentPage)
  {
    Directory(UrlFromPath(filePath), SubPath(filePath), ParentPath(filePath),
              Entries(filePath, Page(files, currentPage)))
  }

  /** Pages the (possibly empty) listing and builds the directory record. */
  function ListingPage(filePath: string, files: seq<string>, currentPage: int): Response
    requires filePath != ""
  {
    if !PageInRange(|files|, currentPage) then Aborted(PageOutOfRange)
    else DirectoryPage(DirectoryRecord(filePath, files, currentPage))
  }

  /** The file record of a file read successfully. */
  function FileRecord(filePath: string, body: Bytes): File
    requires filePath != ""
  {
    File(UrlFromPath(filePath), SubPath(filePath), ParentPath(filePath), body)
  }

  /**
   `directoryHandler`: without a query, redirect to `?page=1` (both branches of the
   source redirect to the same relative target); otherwise read the page, list
   the directory and render the page. A failed listing renders the error page and
   then carries on with an empty listing, as the source does not return there.
   */
  function DirectoryHandler(filePath: string, rawQuery: string, listing: Listing): Response
    requires filePath != ""
  {
    if rawQuery == "" then Redirect("?page=1")
    else if !QueryReadable(rawQuery) then Aborted(NoPageValue)
    else
      var currentPage := QueryPage(rawQuery);
      match listing
      case ListFailed(message) =>
        ErrorPageThen(ErrorFile(UrlFromPath(filePath), filePath, message), ListingPage(filePath, [], currentPage))
      case Listed(names) => ListingPage(filePath, names, currentPage)
  }

  /** `fileHandler` with `loadFile`. */
  function FileHandler(filePath: string, contents: Contents): Response
    requires filePath != ""
  {
    match contents
    case Loaded(body) => FilePage(FileRecord(filePath, body))
    case LoadFailed(message, pathNotFound) =>
      if pathNotFound then ErrorPage(ErrorFile(UrlFromPath(filePath), filePath, message))
      else Aborted(NilFile)
  }

  /** `pageHandler`: validate, stat, and dispatch on the kind of entry. */
  function PageHandler(urlPath: string, rawQuery: string, fs: FileSystem): Response
  {
    var filePath := "." + urlPath;
    if !IsValidPath(filePath) then NotFound
    else if filePath !in fs.nodes then ErrorPage(ErrorFile(urlPath, filePath, fs.notExist))
    else
      match fs.nodes[filePath]
      case StatFailed(_) => Aborted(NilFileInfo)
      case DirNode(listing) => DirectoryHandler(filePath, rawQuery, listing)
      case RegularNode(contents) => FileHandler(filePath, contents)
      case OtherNode => NoResponse
  }

  /** `redirectToRoot` */
  function RedirectToRoot(): Response
  {
    Redirect("/files/")
  }

  /**
   The two routes registered by `main`: paths under `/files/` go to the page
   handler, every other path to the root redirect (the longest registered prefix
   wins).
   */
  function Serve(urlPath: string, rawQuery: string, fs: FileSystem): Response
  {
    if HasPrefix(urlPath, "/files/") then PageHandler(urlPath, rawQuery, fs) else RedirectToRoot()
  }

  // ---------------------------------------------------------------------------
  // Properties of the dispatch
  // ---------------------------------------------------------------------------

  /** An invalid path is answered with 404 whatever the file system holds. */
  lemma InvalidPathIsNotFound(urlPath: string, rawQuery: string, fs: FileSystem, fs': FileSystem)
    requires !IsValidPath("." + urlPath)
    ensures PageHandler(urlPath, rawQuery, fs) == NotFound
    ensures PageHandler(urlPath, rawQuery, fs) == PageHandler(urlPath, rawQuery, fs')
  {
  }

  /** A valid path that does not exist gets the error page, with the request path as its path. */
  lemma MissingPathIsErrorPage(urlPath: string, rawQuery: string, fs: FileSystem)
    requires IsValidPath("." + urlPath) && "." + urlPath !in fs.nodes
    ensures PageHandler(urlPath, rawQuery, fs)
         == ErrorPage(File(urlPath, "Error", ParentPath("." + urlPath), fs.notExist))
  {
  }

  /** A directory requested without a query is answered with a redirect whose target is `?page=1`. */
  lemma DirectoryWithoutQueryRedirects(urlPath: string, fs: FileSystem)
    requires IsValidPath("." + urlPath) && "." + urlPath in fs.nodes && fs.nodes["." + urlPath].DirNode?
    ensures PageHandler(urlPath, "", fs) == Redirect("?page=1")
  {
  }

  /** `/` and every other path outside `/files/` redirect to `/files/`. */
  lemma OutsideFilesRedirectsToRoot(urlPath: string, rawQuery: string, fs: FileSystem)
    requires !HasPrefix(urlPath, "/files/")
    ensures Serve(urlPath, rawQuery, fs) == Redirect("/files/")
  {
  }

  lemma RootRedirects(rawQuery: string, fs: FileSystem)
    ensures Serve("/", rawQuery, fs) == Redirect("/files/")
  {
    OutsideFilesRedirectsToRoot("/", rawQuery, fs);
  }

  /** Every error page the handler renders is titled `Error`. */
  lemma ErrorPagesAreTitledError(urlPath: string, rawQuery: string, fs: FileSystem)
    ensures PageHandler(urlPath, rawQuery, fs).ErrorPage? ==> PageHandler(urlPath, rawQuery, fs).file.title == "Error"
    ensures PageHandler(urlPath, rawQuery, fs).ErrorPageThen? ==> PageHandler(urlPath, rawQuery, fs).error.title == "Error"
  {
  }

  /**
   A directory page is rendered only for an existing, successfully listed
   directory requested with a query whose page is in range; its record is that
   page of the listing.
   */
  lemma DirectoryPageShape(urlPath: string, rawQuery: string, fs: FileSystem)
    requires PageHandler(urlPath, rawQuery, fs).DirectoryPage?
    ensures IsValidPath("." + urlPath) && "." + urlPath in fs.nodes
    ensures fs.nodes["." + urlPath].DirNode? && fs.nodes["." + urlPath].listing.Listed?
    ensures rawQuery != "" && QueryReadable(rawQuery)
    ensures PageInRange(|fs.nodes["." + urlPath].listing.names|, QueryPage(rawQuery))
    ensures PageHandler(urlPath, rawQuery, fs).directory
         == DirectoryRecord("." + urlPath, fs.nodes["." + urlPath].listing.names, QueryPage(rawQuery))
  {
  }

  /** A request for page `n` of a listed directory renders that page when it is in range. */
  lemma DirectoryPageServed(urlPath: string, fs: FileSystem, n: nat)
    requires IsValidPath("." + urlPath) && "." + urlPath in fs.nodes
    requires fs.nodes["." + urlPath].DirNode? && fs.nodes["." + urlPath].listing.Listed?
    requires 1 <= n <= |fs.nodes["." + urlPath].listing.names| / PagingLimit + 1
    ensures PageInRange(|fs.nodes["." + urlPath].listing.names|, n)
    ensures PageHandler(urlPath, PageSetting(n), fs)
         == DirectoryPage(DirectoryRecord("." + urlPath, fs.nodes["." + urlPath].listing.names, n))
  {
    PageRange(|fs.nodes["." + urlPath].listing.names|, n);
    SinglePageQuery(n);
  }

  /** `page=v` with a value that reads as 0 (not a numeral, or `0`, `00`, ...) asks for page 0. */
  lemma ZeroPageQuery(v: string)
    requires '=' !in v && '&' !in v && Atoi(v) == 0
    ensures QueryReadable("page=" + v) && QueryPage("page=" + v) == 0
  {
    PagePiece(v);
    assert '&' !in "page=" + v;
    SplitNoSeparator("page=" + v, '&');
  }

  /**
   A directory request whose page value reads as 0 (the guard never sees the
   query) asks for page 0, which the pager cannot slice: the response ends in the
   out-of-range failure.
   */
  lemma ZeroPageAborts(urlPath: string, fs: FileSystem, v: string)
    requires IsValidPath("." + urlPath) && "." + urlPath in fs.nodes && fs.nodes["." + urlPath].DirNode?
    requires '=' !in v && '&' !in v && Atoi(v) == 0
    ensures var r := PageHandler(urlPath, "page=" + v, fs);
            r == Aborted(PageOutOfRange) || (r.ErrorPageThen? && r.rest == Aborted(PageOutOfRange))
  {
    ZeroPageQuery(v);
    assert !PageInRange(0, 0);
  }

  /** File or directory names as an operating system lists them: non-empty, without a separator. */
  predicate PlainNames(names: seq<string>) {
    forall i :: 0 <= i < |names| ==> names[i] != "" && '/' !in names[i]
  }

  /**
   For a request path under `/files/` that passes the guard: the public form of
   the file path is the request path without its leading `/`, and the parent path
   is a valid directory path below the root ending with `/`.
   */
  lemma RequestPathFacts(urlPath: string)
    requires HasPrefix(urlPath, "/files/") && IsValidPath("." + urlPath)
    ensures "/" + UrlFromPath("." + urlPath) == urlPath && HasPrefix(UrlFromPath("." + urlPath), "files/")
    ensures IsValidPath(ParentPath("." + urlPath)) && HasPrefix(ParentPath("." + urlPath), RootDir)
    ensures ParentPath("." + urlPath)[|ParentPath("." + urlPath)| - 1] == '/'
  {
    RequestUrl(urlPath);
    RequestParent(urlPath);
  }

  /** The public form of a request's file path is the request path without its leading `/`. */
  lemma RequestUrl(urlPath: string)
    requires HasPrefix(urlPath, "/files/") && IsValidPath("." + urlPath)
    ensures "/" + UrlFromPath("." + urlPath) == urlPath && HasPrefix(UrlFromPath("." + urlPath), "files/")
  {
    var filePath := "." + urlPath;
    UrlFromValidPath(filePath);
    var u := UrlFromPath(filePath);
    assert u == filePath[2..] == urlPath[1..];
    assert u[..6] == urlPath[1..7];
  }

  /** The parent of a request's file path is a valid directory path below the root ending with `/`. */
  lemma RequestParent(urlPath: string)
    requires HasPrefix(urlPath, "/files/") && IsValidPath("." + urlPath)
    ensures IsValidPath(ParentPath("." + urlPath)) && HasPrefix(ParentPath("." + urlPath), RootDir)
    ensures ParentPath("." + urlPath)[|ParentPath("." + urlPath)| - 1] == '/'
  {
    var filePath := "." + urlPath;
    assert filePath[..|RootDir|] == "." + urlPath[..7];
    ParentOfValidPath(filePath);
  }

  /**
   The record of any page of a directory below the root: at most five entries; its
   path is the request path without the leading `/` (no `./` leaks); its parent
   path is a valid directory path ending with `/`; its title has no separator;
   and, for plainly named entries, every link comes back to the listed directory
   as its parent and to the entry's name as its sub-path.
   */
  lemma DirectoryRecordInvariants(urlPath: string, names: seq<string>, currentPage: int)
    requires HasPrefix(urlPath, "/files/") && IsValidPath("." + urlPath)
    requires PageInRange(|names|, currentPage)
    ensures var filePath := "." + urlPath;
            var d := DirectoryRecord(filePath, names, currentPage);
            |d.dir| <= PagingLimit &&
            "/" + d.path == urlPath && HasPrefix(d.path, "files/") &&
            IsValidPath(d.parentPath) && HasPrefix(d.parentPath, RootDir) &&
            d.parentPath[|d.parentPath| - 1] == '/' &&
            '/' !in d.title &&
            (PlainNames(names) ==>
              forall i :: 0 <= i < |d.dir| ==>
                SubPath(d.dir[i].fullPath) == d.dir[i].subPath &&
                ParentPath(d.dir[i].fullPath) == (if filePath == RootDir then RootDir else filePath + "/"))
  {
    var filePath := "." + urlPath;
    var d := DirectoryRecord(filePath, names, currentPage);
    RequestPathFacts(urlPath);
    assert d.path == UrlFromPath(filePath) && d.parentPath == ParentPath(filePath);
    assert d.title == SubPath(filePath) && |d.dir| == |Page(names, currentPage)|;
    if PlainNames(names) {
      PageLinksReturn(filePath, names, currentPage);
    }
  }

  /** For plainly named entries, every link of a page leads back to the listed directory and to the entry's name. */
  lemma PageLinksReturn(filePath: string, names: seq<string>, currentPage: int)
    requires filePath != "" && PageInRange(|names|, currentPage) && PlainNames(names)
    ensures var links := DirectoryRecord(filePath, names, currentPage).dir;
            forall i :: 0 <= i < |links| ==>
              SubPath(links[i].fullPath) == links[i].subPath &&
              ParentPath(links[i].fullPath) == (if filePath == RootDir then RootDir else filePath + "/")
  {
    var links := DirectoryRecord(filePath, names, currentPage).dir;
    var page := Page(names, currentPage);
    forall i | 0 <= i < |links|
      ensures SubPath(links[i].fullPath) == links[i].subPath
      ensures ParentPath(links[i].fullPath) == (if filePath == RootDir then RootDir else filePath + "/")
    {
      assert links[i] == DirectoryInfo(ChildPath(filePath, page[i]), page[i]);
      assert page[i] == names[(currentPage - 1) * PagingLimit + i];
      ChildRoundTrip(filePath, page[i]);
    }
  }

  /** Every directory page served through the `/files/` route has the invariants above. */
  lemma ServedDirectoryPage(urlPath: string, rawQuery: string, fs: FileSystem)
    requires HasPrefix(urlPath, "/files/")
    requires Serve(urlPath, rawQuery, fs).DirectoryPage?
    ensures var names := fs.nodes["." + urlPath].listing.names;
            PageInRange(|names|, QueryPage(rawQuery)) &&
            Serve(urlPath, rawQuery, fs).directory == DirectoryRecord("." + urlPath, names, QueryPage(rawQuery))
  {
    DirectoryPageShape(urlPath, rawQuery, fs);
  }

  /**
   The record of a file below the root: the path is the request path without its
   leading `/`, the parent path is a valid directory path, and for a path without
   a trailing `/` the parent path and the title rejoin to the file's path.
   */
  lemma FileRecordInvariants(urlPath: string, body: Bytes)
    requires HasPrefix(urlPath, "/files/") && IsValidPath("." + urlPath)
    ensures var filePath := "." + urlPath;
            var f := FileRecord(filePath, body);
            f.body == body && "/" + f.path == urlPath &&
            IsValidPath(f.parentPath) && HasPrefix(f.parentPath, RootDir) &&
            (urlPath[|urlPath| - 1] != '/' ==> f.title != "" && f.parentPath + f.title == filePath)
  {
    var filePath := "." + urlPath;
    RequestPathFacts(urlPath);
    assert filePath[|filePath| - 1] == urlPath[|urlPath| - 1];
    if urlPath[|urlPath| - 1] != '/' {
      ParentThenSubPath(filePath);
    }
  }

  /** A file page is rendered only for a regular file read successfully, with that file's record. */
  lemma ServedFilePage(urlPath: string, rawQuery: string, fs: FileSystem)
    requires HasPrefix(urlPath, "/files/")
    requires Serve(urlPath, rawQuery, fs).FilePage?
    ensures IsValidPath("." + urlPath) && "." + urlPath in fs.nodes
    ensures fs.nodes["." + urlPath].RegularNode? && fs.nodes["." + urlPath].contents.Loaded?
    ensures Serve(urlPath, rawQuery, fs).file == FileRecord("." + urlPath, fs.nodes["." + urlPath].contents.body)
  {
  }
}
