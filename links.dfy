/**
 The child links of a directory page (`DirectoryInfo` and `getDirectoryInfo`).
 */
module Links {
  import opened Text
  import opened Paths

  /** One child of a listed directory: the path to navigate into it, and its name. */
  datatype DirectoryInfo = DirectoryInfo(fullPath: string, subPath: string)

  /** The path of child `name` of directory `path`: no separator is added after the root. */
  function ChildPath(path: string, name: string): string
  {
    if path == RootDir then path + name else path + "/" + name
  }

  /** The entry for each name, in listing order. */
  function Entries(path: string, names: seq<string>): (entries: seq<DirectoryInfo>)
    ensures |entries| == |names|
    ensures forall i :: 0 <= i < |names| ==>
              entries[i].subPath == names[i] &&
              entries[i].fullPath == (if path == RootDir then path + names[i] else path + "/" + names[i])
  {
    if names == [] then []
    else Entries(path, names[..|names| - 1]) + [DirectoryInfo(ChildPath(path, names[|names| - 1]), names[|names| - 1])]
  }

  /**
   `getDirectoryInfo(path, files)`: allocates one zero-valued record per name and
   fills in its two fields.
   */
  method GetDirectoryInfo(path: string, names: seq<string>) returns (dirInfo: array<DirectoryInfo>)
    ensures fresh(dirInfo)
    ensures dirInfo[..] == Entries(path, names)
  {
    dirInfo := new DirectoryInfo[|names|](_ => DirectoryInfo("", ""));
    for i := 0 to |names|
      invariant forall k :: 0 <= k < i ==> dirInfo[k] == Entries(path, names)[k]
    {
      var v := names[i];
      if path == RootDir {
        dirInfo[i] := dirInfo[i].(fullPath := path + v);
      } else {
        dirInfo[i] := dirInfo[i].(fullPath := path + "/" + v);
      }
      dirInfo[i] := dirInfo[i].(subPath := v);
    }
  }

  /**
   A child link leads back to its directory: the child's sub-path is its name, and
   its parent path is the directory with a trailing separator.
   */
  lemma ChildRoundTrip(path: string, name: string)
    requires name != "" && '/' !in name
    ensures SubPath(ChildPath(path, name)) == name
    ensures ParentPath(ChildPath(path, name)) == if path == RootDir then RootDir else path + "/"
  {
    if path == RootDir {
      assert ChildPath(path, name) == RootPrefix + "/" + name;
      SubPathOfChild(RootPrefix, name);
    } else {
      SubPathOfChild(path, name);
    }
  }

  /** The route with one more numeric segment at the end. */
  lemma ExtendRoute(r: Route, name: string)
    requires WellFormed(r) && IsNumeral(name)
    ensures WellFormed(Route(r.segments + [name], Bare))
    ensures Render(Route(r.segments + [name], Bare)) == RootPrefix + SegmentsText(r.segments) + "/" + name
  {
    var child := Route(r.segments + [name], Bare);
    forall i | 0 <= i < |child.segments| ensures IsNumeral(child.segments[i]) {
      if i < |r.segments| { assert child.segments[i] == r.segments[i]; }
    }
    SegmentsTextSnoc(r.segments, name);
  }

  /**
   Children with numeric names of the root or of a segment path without a trailing
   separator are themselves valid paths.
   */
  lemma ChildOfValidDirectory(path: string, name: string)
    requires IsNumeral(name)
    requires path == RootDir || (IsValidPath(path) && Parse(path).ending == Bare)
    ensures IsValidPath(ChildPath(path, name))
  {
    if path == RootDir {
      var r := Route([], Bare);
      ExtendRoute(r, name);
      assert r.segments + [name] == [name];
      assert Render(Route([name], Bare)) == ChildPath(path, name);
      RenderIsValid(Route([name], Bare));
    } else {
      var r := Parse(path);
      ExtendRoute(r, name);
      assert path == RootPrefix + SegmentsText(r.segments);
      RenderIsValid(Route(r.segments + [name], Bare));
    }
  }

  /** Below a directory path with a trailing separator the links get an empty segment. */
  lemma TrailingSlashChildIsInvalid()
    ensures !IsValidPath(ChildPath("./files/1/", "2"))
  {
    var p := ChildPath("./files/1/", "2");
    assert p == "./files/1//2";
    assert p[7..] == "/1//2";
    assert p[7..][1..] == "1//2";
    assert p[7..][1..][1..] == "//2";
    assert p[7..][1..][1..][1..] == "/2";
    assert !AfterSlash("/2");
    assert !InSegment("//2");
    assert !AfterSlash("1//2");
    assert !AfterRoot("/1//2");
  }
}
