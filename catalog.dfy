/** The group catalog built once at start-up by `parse_image_dir` and `dict(...)`:
    every directory directly under the image root becomes a group, and its images
    are the `.jpg` entries of that directory, named relative to the root. The
    directory listing is an input; the file system itself is not modelled. */
module Catalog {
  import opened Text

  /** One entry of the image root: its name, whether it is a directory, and the
      names of the entries inside it (in the order the file system lists them). */
  datatype Entry = Entry(name: string, isDir: bool, children: seq<string>)

  const ImageSuffix: string := ".jpg"

  /** The names `glob("*.jpg")` matches: `*` matches any text, dots included. */
  predicate IsImageName(name: string)
  {
    EndsWith(name, ImageSuffix)
  }

  /** `path` is `group/<f>` for an image name `f`: the shape of
      `str(p.relative_to(root))` for a match `p` inside directory `group`. */
  predicate IsImageOf(group: string, path: string)
  {
    StartsWith(path, group + [Slash]) && IsImageName(path[|group| + 1..])
  }

  /** What a file system guarantees about a listing: a name never holds the
      separator. */
  ghost predicate WellFormedListing(entries: seq<Entry>)
  {
    forall i :: 0 <= i < |entries| ==> Slash !in entries[i].name
  }

  /** No two directories of the root share a name (true of any real listing). */
  ghost predicate DistinctDirectories(entries: seq<Entry>)
  {
    forall i, j :: 0 <= i < j < |entries| && entries[i].isDir && entries[j].isDir ==>
      entries[i].name != entries[j].name
  }

  /** The names of the directories among `entries`. */
  ghost function DirectoryNames(entries: seq<Entry>): set<string>
  {
    set e | e in entries && e.isDir :: e.name
  }

  /** The image list of one group: the `.jpg` children of the directory, in
      listing order, each prefixed by the group name and a slash. */
  function ImagePaths(group: string, children: seq<string>): (paths: seq<string>)
    ensures |paths| <= |children|
    ensures forall p :: p in paths ==> IsImageOf(group, p) && p[|group| + 1..] in children
    ensures forall c :: c in children && IsImageName(c) ==> group + [Slash] + c in paths
  {
    if |children| == 0 then []
    else
      var rest := ImagePaths(group, children[1..]);
      var c := children[0];
      if IsImageName(c) then
        var p := group + [Slash] + c;
        assert p[..|group| + 1] == group + [Slash] && p[|group| + 1..] == c;
        [p] + rest
      else rest
  }

  /** The catalog `dict(parse_image_dir(root))` holds after reading the first
      entries of the listing: a directory adds (or, for a repeated name,
      replaces) its group; any other entry is skipped. */
  function Groups(entries: seq<Entry>): (groups: map<string, seq<string>>)
    ensures forall g :: g in groups ==> forall p :: p in groups[g] ==> IsImageOf(g, p)
  {
    if |entries| == 0 then map[]
    else
      var previous := Groups(entries[..|entries| - 1]);
      var e := entries[|entries| - 1];
      if e.isDir then previous[e.name := ImagePaths(e.name, e.children)] else previous
  }

  /** The loop of `parse_image_dir` together with the `dict(...)` that consumes
      it: one pass over the listing, one group per directory. */
  method ParseImageDir(entries: seq<Entry>) returns (groups: map<string, seq<string>>)
    ensures groups == Groups(entries)
  {
    groups := map[];
    for i := 0 to |entries|
      invariant groups == Groups(entries[..i])
    {
      var e := entries[i];
      assert entries[..i + 1][..i] == entries[..i];
      if e.isDir {
        groups := groups[e.name := ImagePaths(e.name, e.children)];
      }
    }
    assert entries[..|entries|] == entries;
  }

  /** The group names are exactly the directory names of the root: a directory
      without any image is still a group, and nothing else is. */
  lemma {:induction false} GroupNames(entries: seq<Entry>)
    ensures Groups(entries).Keys == DirectoryNames(entries)
  {
    if |entries| > 0 {
      var init := entries[..|entries| - 1];
      GroupNames(init);
      assert entries == init + [entries[|entries| - 1]];
    }
  }

  /** With distinct directory names, each directory's group holds exactly its
      own `.jpg` children. */
  lemma {:induction false} GroupOfDirectory(entries: seq<Entry>, k: nat)
    requires DistinctDirectories(entries)
    requires k < |entries| && entries[k].isDir
    ensures entries[k].name in Groups(entries)
    ensures Groups(entries)[entries[k].name] == ImagePaths(entries[k].name, entries[k].children)
  {
    var last := |entries| - 1;
    var init := entries[..last];
    if k < last {
      assert DistinctDirectories(init);
      GroupOfDirectory(init, k);
      assert init[k] == entries[k];
    }
  }

  /** Every group name comes from a directory entry, so it holds no slash. */
  lemma {:induction false} GroupNameHasNoSlash(entries: seq<Entry>, g: string)
    requires WellFormedListing(entries)
    requires g in Groups(entries)
    ensures Slash !in g
  {
    GroupNames(entries);
    var e :| e in entries && e.isDir && e.name == g;
  }
}
