/** The three HTTP handlers of the gallery and the error wrapper around them,
    over a filesystem reduced to the entries of one directory. */
module Routes {
  import opened Results
  import opened StringOrder
  import opened GoFilepath

  /** Bytes of a file. */
  newtype byte = x: int | 0 <= x < 256

  /** The files directly inside one directory, by entry name. */
  type Directory = map<string, seq<byte>>

  /** A route's directory as the server finds it: `None` when it does not
      exist (`thumbs/` exists only once the `-thumb` mode has made it). */
  type Folder = Option<Directory>

  /** An existing folder holds well-formed entries. */
  ghost predicate WellFormedFolder(f: Folder) {
    f.Some? ==> WellFormedDirectory(f.value)
  }

  /** A directory's entries are single path elements. */
  ghost predicate WellFormedDirectory(d: Directory) {
    forall name | name in d :: name != "" && name != "." && name != ".." && '/' !in name
  }

  /** The error the guard reports for a rejected name. */
  const NotFound: string := "file not found"

  /** What a handler writes back: the file with its content type, or, when the
      handler returned an error, the JSON envelope `{"error": ...}` carrying
      the error text (sent with status 200 all the same). */
  datatype Response =
    | Served(contentType: string, body: seq<byte>)
    | ErrorEnvelope(error: string)

  /** `handleError`: turns a handler's error into the JSON error envelope. */
  function HandleError(contentType: string, r: Result<seq<byte>>): (resp: Response)
    ensures resp.ErrorEnvelope? <==> r.Err?
    ensures r.Err? ==> resp.error == r.message
    ensures r.Ok? ==> resp.body == r.value && resp.contentType == contentType
  {
    match r
    case Ok(data) => Served(contentType, data)
    case Err(m) => ErrorEnvelope(m)
  }

  /** The path guard of `routeImage` and `routeThumbs`: reduce the route
      parameter to its base name and refuse the parent-directory name. */
  function GuardName(param: string): (r: Result<string>)
    ensures r.Err? <==> Base(param) == ".."
    ensures r.Err? ==> r.message == NotFound
    ensures r.Ok? ==> r.value == Base(param)
    ensures r.Ok? ==> r.value != "" && r.value != ".."
    ensures r.Ok? ==> r.value == "/" || '/' !in r.value
  {
    var file := Base(param);
    if file == ".." then Err(NotFound) else Ok(file)
  }

  /** A non-empty name without separators, other than "..", passes the guard unchanged. */
  lemma GuardAcceptsPlainName(name: string)
    requires name != "" && name != ".." && '/' !in name
    ensures GuardName(name) == Ok(name)
  {
    BaseOfElement("", name, "");
    assert "" + name + "" == name;
  }

  /** Any path whose last element is not "..", whatever leads up to it and
      however many separators follow it, passes the guard as that element. */
  lemma GuardAcceptsLastElement(pre: string, e: string, post: string)
    requires ElementBoundary(pre) && AllSlashes(post)
    requires e != "" && e != ".." && '/' !in e
    ensures GuardName(pre + e + post) == Ok(e)
  {
    BaseOfElement(pre, e, post);
  }

  /** Any number of leading elements followed by "..", with or without
      trailing separators, is refused: "..", "../../..", "a/../", ... */
  lemma GuardRejectsTraversal(pre: string, post: string)
    requires ElementBoundary(pre) && AllSlashes(post)
    ensures GuardName(pre + ".." + post) == Err(NotFound)
  {
    BaseOfElement(pre, "..", post);
  }

  /** A name the guard accepted passes the guard again unchanged. */
  lemma GuardStable(param: string)
    requires GuardName(param).Ok?
    ensures GuardName(GuardName(param).value) == GuardName(param)
  {
    BaseIdempotent(param);
  }

  /** `ioutil.ReadFile(dirName + "/" + name)` for the folder `dirName`. In an
      existing folder the names "." and "/" denote the folder itself, which
      opens but cannot be read as a file; any other name that is not an entry
      does not exist. In a missing folder every open fails. */
  function ReadEntry(dirName: string, f: Folder, name: string): (r: Result<seq<byte>>)
    ensures r.Ok? <==> f.Some? && name in f.value
    ensures r.Ok? ==> r.value == f.value[name]
    ensures f.Some? && name !in f.value && (name == "." || name == "/") ==>
      r == Err("read " + dirName + "/" + name + ": is a directory")
    ensures (f.None? || (name !in f.value && name != "." && name != "/")) ==>
      r == Err("open " + dirName + "/" + name + ": no such file or directory")
  {
    if f.Some? && name in f.value then Ok(f.value[name])
    else if f.Some? && (name == "." || name == "/") then Err("read " + dirName + "/" + name + ": is a directory")
    else Err("open " + dirName + "/" + name + ": no such file or directory")
  }

  /** The two file routes: `/images/:image` and `/thumbs/:image`. */
  datatype FileRoute = Images | Thumbs {
    function DirName(): string {
      match this
      case Images => "imgs"
      case Thumbs => "thumbs"
    }
    function ContentType(): string {
      match this
      case Images => "image/gif"
      case Thumbs => "image/jpeg"
    }
  }

  /** `routeImage` / `routeThumbs` wrapped by `handleError`. Only a direct
      entry of the route's directory is ever served, and it is the entry the
      parameter's base name names. */
  function ServeFile(route: FileRoute, f: Folder, param: string): (resp: Response)
    requires WellFormedFolder(f)
    ensures resp.Served? <==> f.Some? && Base(param) in f.value
    ensures resp.Served? ==> resp.contentType == route.ContentType() && resp.body == f.value[Base(param)]
    ensures Base(param) == ".." ==> resp == ErrorEnvelope(NotFound)
    ensures Base(param) != ".." && (f.None? || (Base(param) != "/" && Base(param) != "." && Base(param) !in f.value)) ==>
      resp == ErrorEnvelope("open " + route.DirName() + "/" + Base(param) + ": no such file or directory")
  {
    var read :=
      match GuardName(param)
      case Err(m) => Err(m)
      case Ok(file) => ReadEntry(route.DirName(), f, file);
    HandleError(route.ContentType(), read)
  }

  /** A traversal attempt such as "../../etc/passwd" can only reach the entry
      named by its last element, inside the route's own directory. */
  lemma TraversalStaysInDirectory(route: FileRoute, d: Directory, pre: string, name: string)
    requires WellFormedDirectory(d)
    requires ElementBoundary(pre)
    requires name != "" && '/' !in name
    ensures ServeFile(route, Some(d), pre + name).Served? <==> name in d
    ensures name in d ==> ServeFile(route, Some(d), pre + name).body == d[name]
  {
    BaseOfElement(pre, name, "");
    assert pre + name + "" == pre + name;
  }

  /** The values bound into the index template: exactly the listing. */
  datatype IndexValues = IndexValues(images: seq<string>)

  /** `routeIndex` up to template execution: the directory's entry names,
      as `Readdirnames` returned them (or its error), sorted with `sort.Strings`. */
  function RouteIndex(entries: Result<seq<string>>): (r: Result<IndexValues>)
    ensures r.Ok? <==> entries.Ok?
    ensures r.Err? ==> r.message == entries.message
    ensures r.Ok? ==> Sorted(r.value.images)
    ensures r.Ok? ==> multiset(r.value.images) == multiset(entries.value)
  {
    match entries
    case Err(m) => Err(m)
    case Ok(names) => Ok(IndexValues(SortStrings(names)))
  }

  /** The page lists exactly the directory's entries, and the list does not
      depend on the order the directory was read in. */
  lemma RouteIndexListsEntries(names: seq<string>, reordered: seq<string>)
    requires multiset(names) == multiset(reordered)
    ensures RouteIndex(Ok(names)).value.images == RouteIndex(Ok(reordered)).value.images
    ensures forall n :: n in RouteIndex(Ok(names)).value.images <==> n in names
  {
    SortIgnoresInputOrder(names, reordered);
    var images := RouteIndex(Ok(names)).value.images;
    forall n ensures n in images <==> n in names {
      assert n in images <==> n in multiset(images);
      assert n in names <==> n in multiset(names);
    }
  }

  /** `a.gif`, `c.gif`, `b.gif` in the directory give the array
      `["a.gif", "b.gif", "c.gif"]`. */
  lemma RouteIndexExample()
    ensures RouteIndex(Ok(["a.gif", "c.gif", "b.gif"])) == Ok(IndexValues(["a.gif", "b.gif", "c.gif"]))
  {
    var sorted := ["a.gif", "b.gif", "c.gif"];
    assert Le("a.gif", "b.gif") && Le("b.gif", "c.gif") && Le("a.gif", "c.gif");
    assert Sorted(sorted);
    assert multiset(sorted) == multiset(["a.gif", "c.gif", "b.gif"]);
    SortIsTheSortedPermutation(["a.gif", "c.gif", "b.gif"], sorted);
  }
}
