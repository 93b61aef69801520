/** The library side of the similarity search: which directory entries count as images
    (`os.path.splitext` plus the extension allow-list), how their paths are formed
    (`os.path.join`), and the index of feature vectors and paths built from them. */
module Library {
  import opened Wrappers
  import opened Text

  /** A feature vector produced by the image-embedding model. */
  type Feature = seq<real>

  /** `os.path.splitext(p)[1]` on POSIX: the text from the last '.' of the final path
      component, provided that component has a character other than '.' before that dot;
      otherwise the empty string. */
  function Extension(p: string): (ext: string)
    ensures ext == [] || (|ext| <= |p| && ext == p[|p| - |ext|..] && ext[0] == '.')
  {
    var sep := LastIndex(p, '/');
    var dot := LastIndex(p, '.');
    if dot > sep && exists k :: sep < k < dot && p[k] != '.' then p[dot..] else ""
  }

  /** The extensions accepted for library images, compared after lower-casing. */
  const ValidExtensions: seq<string> := [".png", ".jpg", ".jpeg", ".gif"]

  /** A directory entry is considered iff its lower-cased extension is on the allow-list. */
  predicate IsLibraryImage(name: string) {
    Lower(Extension(name)) in ValidExtensions
  }

  /** In a name without '/', position `i` holds the last dot and something other than a
      dot comes before it: `splitext` splits the extension off there. */
  ghost predicate SplitsExtensionAt(name: string, i: int) {
    && 0 <= i < |name| && name[i] == '.'
    && (forall j :: i < j < |name| ==> name[j] != '.')
    && (exists k :: 0 <= k < i && name[k] != '.')
  }

  /** The extension of a name without '/' is the text from the split position, if there is
      one, and empty otherwise. */
  lemma ExtensionOfName(name: string)
    requires forall j :: 0 <= j < |name| ==> name[j] != '/'
    ensures forall i :: SplitsExtensionAt(name, i) ==> Extension(name) == name[i..]
    ensures (forall i :: !SplitsExtensionAt(name, i)) ==> Extension(name) == []
  {
    var dot := LastIndex(name, '.');
    assert LastIndex(name, '/') == -1;
    if Extension(name) != [] {
      assert SplitsExtensionAt(name, dot);
    }
  }

  /** For a directory entry (a name without '/'), being considered means: there is a last
      dot, something other than a dot precedes it, and the lower-cased text from that dot on
      is an allowed extension. */
  lemma LibraryImageIff(name: string)
    requires forall j :: 0 <= j < |name| ==> name[j] != '/'
    ensures IsLibraryImage(name) <==>
      exists i :: SplitsExtensionAt(name, i) && Lower(name[i..]) in ValidExtensions
  {
    ExtensionOfName(name);
    assert Lower([]) !in ValidExtensions;
  }

  /** Upper-case extensions are accepted. */
  lemma LibraryImageUpperCase()
    ensures IsLibraryImage("look.PNG")
  {
    var a := "look.PNG";
    assert a[4] == '.' && a[5] != '.' && a[6] != '.' && a[7] != '.' && a[0] != '.';
    assert SplitsExtensionAt(a, 4);
    ExtensionOfName(a);
    assert a[4..] == ".PNG";
    assert Lower(".PNG") == ".png";
  }

  /** Only the last dot counts, and dots before it are allowed. */
  lemma LibraryImageDoubleDot()
    ensures IsLibraryImage("a..jpeg")
  {
    var b := "a..jpeg";
    assert b[2] == '.' && b[3] != '.' && b[4] != '.' && b[5] != '.' && b[6] != '.' && b[0] != '.';
    assert SplitsExtensionAt(b, 2);
    ExtensionOfName(b);
    assert b[2..] == ".jpeg";
    assert Lower(".jpeg") == ".jpeg";
  }

  /** A bare dot-file has no extension. */
  lemma LibraryImageDotFile()
    ensures !IsLibraryImage(".png")
  {
    var c := ".png";
    assert c[0] == '.' && c[1] != '.' && c[2] != '.' && c[3] != '.';
    assert LastIndex(c, '.') == 0;
  }

  /** A double extension is judged by its last part. */
  lemma LibraryImageLastExtension()
    ensures !IsLibraryImage("coat.png.txt")
  {
    var d := "coat.png.txt";
    assert d[8] == '.' && d[9] != '.' && d[10] != '.' && d[11] != '.' && d[0] != '.';
    assert SplitsExtensionAt(d, 8);
    ExtensionOfName(d);
    assert d[8..] == ".txt";
    assert Lower(".txt") == ".txt";
  }

  /** A name without a dot has no extension. */
  lemma LibraryImageNoDot()
    ensures !IsLibraryImage("png")
  {
    assert LastIndex("png", '.') == -1;
  }

  /** `os.path.join(a, b)` on POSIX. */
  function JoinPath(a: string, b: string): (r: string)
    ensures |b| > 0 && b[0] == '/' ==> r == b
    ensures (|b| == 0 || b[0] != '/') ==>
      |a| + |b| <= |r| <= |a| + |b| + 1 && r[..|a|] == a && r[|r| - |b|..] == b
    ensures |r| == |a| + |b| + 1 <==> (|b| == 0 || b[0] != '/') && |a| > 0 && a[|a| - 1] != '/'
    ensures |r| == |a| + |b| + 1 ==> r[|a|] == '/'
  {
    if |b| > 0 && b[0] == '/' then b
    else if |a| == 0 || a[|a| - 1] == '/' then a + b
    else a + "/" + b
  }

  /** The library index: feature vectors and their source paths, as parallel sequences. */
  datatype LibraryIndex = LibraryIndex(features: seq<Feature>, paths: seq<string>)

  /** What one listed name contributes to the index: its feature vector and path when the
      name passes the extension filter `accept` and the image loads, nothing otherwise. */
  function EntryFor(dir: string, name: string, accept: string -> bool,
                    load: string -> Option<Feature>): Option<(Feature, string)>
  {
    var path := JoinPath(dir, name);
    if accept(name) && load(path).Some? then Some((load(path).value, path)) else None
  }

  /** Walks the directory listing in order; an entry passing `accept` whose image loads
      contributes its feature vector and its path, one that fails to load is skipped.
      `load` stands for opening the file and running the feature extractor on it. */
  function IndexEntries(dir: string, names: seq<string>, accept: string -> bool,
                        load: string -> Option<Feature>): (lib: LibraryIndex)
    ensures |lib.features| == |lib.paths| <= |names|
    ensures forall k :: 0 <= k < |lib.paths| ==> load(lib.paths[k]) == Some(lib.features[k])
    decreases |names|
  {
    if |names| == 0 then LibraryIndex([], [])
    else
      var before := IndexEntries(dir, names[..|names| - 1], accept, load);
      match EntryFor(dir, names[|names| - 1], accept, load)
      case Some((f, path)) => LibraryIndex(before.features + [f], before.paths + [path])
      case None => before
  }

  /** The library index of `find_similar_images`: the directory listing filtered by the
      image-extension allow-list. The two sequences stay the same length and aligned: the
      k-th feature vector is the one loaded from the k-th path. */
  function IndexLibrary(dir: string, names: seq<string>, load: string -> Option<Feature>)
    : (lib: LibraryIndex)
    ensures |lib.features| == |lib.paths| <= |names|
    ensures forall k :: 0 <= k < |lib.paths| ==> load(lib.paths[k]) == Some(lib.features[k])
  {
    IndexEntries(dir, names, IsLibraryImage, load)
  }

  /** Indexing a listing split in two is indexing each part and concatenating: entries
      keep the listing's order and each part is handled independently of the other. */
  lemma {:induction false} IndexEntriesAppend(dir: string, a: seq<string>, b: seq<string>,
                                              accept: string -> bool,
                                              load: string -> Option<Feature>)
    ensures IndexEntries(dir, a + b, accept, load).paths
         == IndexEntries(dir, a, accept, load).paths + IndexEntries(dir, b, accept, load).paths
    ensures IndexEntries(dir, a + b, accept, load).features
         == IndexEntries(dir, a, accept, load).features
          + IndexEntries(dir, b, accept, load).features
    decreases |b|
  {
    if |b| == 0 {
      assert a + b == a;
    } else {
      var b' := b[..|b| - 1];
      assert (a + b)[..|a + b| - 1] == a + b';
      assert (a + b)[|a + b| - 1] == b[|b| - 1];
      IndexEntriesAppend(dir, a, b', accept, load);
      var A, B' := IndexEntries(dir, a, accept, load), IndexEntries(dir, b', accept, load);
      match EntryFor(dir, b[|b| - 1], accept, load)
      case Some((f, path)) =>
        assert A.paths + (B'.paths + [path]) == (A.paths + B'.paths) + [path];
        assert A.features + (B'.features + [f]) == (A.features + B'.features) + [f];
      case None =>
    }
  }

  /** The library index keeps the listing's order: indexing `a + b` indexes `a`, then `b`. */
  lemma IndexLibraryAppend(dir: string, a: seq<string>, b: seq<string>,
                           load: string -> Option<Feature>)
    ensures IndexLibrary(dir, a + b, load).paths
         == IndexLibrary(dir, a, load).paths + IndexLibrary(dir, b, load).paths
    ensures IndexLibrary(dir, a + b, load).features
         == IndexLibrary(dir, a, load).features + IndexLibrary(dir, b, load).features
  {
    IndexEntriesAppend(dir, a, b, IsLibraryImage, load);
  }

  /** Listed entry `i` passes the filter, its image loads, and `p` is its path. */
  ghost predicate Contributes(dir: string, names: seq<string>, accept: string -> bool,
                              load: string -> Option<Feature>, i: int, p: string)
  {
    0 <= i < |names| && accept(names[i])
    && load(JoinPath(dir, names[i])).Some? && p == JoinPath(dir, names[i])
  }

  /** A path is in the index iff some listed entry passes the filter, loads, and has that
      path once joined to the directory. */
  lemma {:induction false} IndexEntriesMembership(dir: string, names: seq<string>,
                                                  accept: string -> bool,
                                                  load: string -> Option<Feature>, p: string)
    ensures p in IndexEntries(dir, names, accept, load).paths <==>
      exists i :: Contributes(dir, names, accept, load, i, p)
    decreases |names|
  {
    if |names| > 0 {
      var init := names[..|names| - 1];
      var last := |names| - 1;
      IndexEntriesMembership(dir, init, accept, load, p);
      var lib := IndexEntries(dir, names, accept, load);
      var before := IndexEntries(dir, init, accept, load);
      var e := EntryFor(dir, names[last], accept, load);
      IndexEntriesLast(dir, names, accept, load);
      if p in lib.paths {
        if p in before.paths {
          var i :| Contributes(dir, init, accept, load, i, p);
          assert init[i] == names[i];
          assert Contributes(dir, names, accept, load, i, p);
        } else {
          assert Contributes(dir, names, accept, load, last, p);
        }
      }
      if exists i :: Contributes(dir, names, accept, load, i, p) {
        var i :| Contributes(dir, names, accept, load, i, p);
        if i < last {
          assert init[i] == names[i];
          assert Contributes(dir, init, accept, load, i, p);
        }
      }
    }
  }

  /** The last listed name adds at most its own entry to the index of the names before it. */
  lemma IndexEntriesLast(dir: string, names: seq<string>, accept: string -> bool,
                         load: string -> Option<Feature>)
    requires |names| > 0
    ensures var before := IndexEntries(dir, names[..|names| - 1], accept, load);
      var name := names[|names| - 1];
      var path := JoinPath(dir, name);
      IndexEntries(dir, names, accept, load).paths
        == before.paths + (if accept(name) && load(path).Some? then [path] else [])
  {
  }

  /** A path is in the library index iff some listed entry has an allowed extension, its
      image loads, and the path is that entry joined to the directory: nothing is invented
      and no loadable image is dropped. */
  lemma IndexLibraryMembership(dir: string, names: seq<string>,
                               load: string -> Option<Feature>, p: string)
    ensures p in IndexLibrary(dir, names, load).paths <==>
      exists i :: 0 <= i < |names| && IsLibraryImage(names[i])
        && load(JoinPath(dir, names[i])).Some? && p == JoinPath(dir, names[i])
  {
    IndexEntriesMembership(dir, names, IsLibraryImage, load, p);
    if p in IndexLibrary(dir, names, load).paths {
      var i :| Contributes(dir, names, IsLibraryImage, load, i, p);
      assert IsLibraryImage(names[i]);
    }
    if exists i :: 0 <= i < |names| && IsLibraryImage(names[i])
        && load(JoinPath(dir, names[i])).Some? && p == JoinPath(dir, names[i])
    {
      var i :| 0 <= i < |names| && IsLibraryImage(names[i])
        && load(JoinPath(dir, names[i])).Some? && p == JoinPath(dir, names[i]);
      assert Contributes(dir, names, IsLibraryImage, load, i, p);
    }
  }

  /** For a fixed directory, joining distinct relative names gives distinct paths. */
  lemma JoinPathInjective(a: string, b1: string, b2: string)
    requires |b1| == 0 || b1[0] != '/'
    requires |b2| == 0 || b2[0] != '/'
    ensures JoinPath(a, b1) == JoinPath(a, b2) ==> b1 == b2
  {
    var p1, p2 := JoinPath(a, b1), JoinPath(a, b2);
    if p1 == p2 {
      if |a| == 0 || a[|a| - 1] == '/' {
        assert p1 == a + b1 && p2 == a + b2;
        assert b1 == p1[|a|..] && b2 == p2[|a|..];
      } else {
        assert p1 == a + "/" + b1 && p2 == a + "/" + b2;
        assert b1 == p1[|a| + 1..] && b2 == p2[|a| + 1..];
      }
    }
  }

  /** A listing without repeated names (as `os.listdir` gives) yields an index without
      repeated paths. */
  lemma {:induction false} IndexEntriesDistinct(dir: string, names: seq<string>,
                                                accept: string -> bool,
                                                load: string -> Option<Feature>)
    requires forall i, j :: 0 <= i < j < |names| ==> names[i] != names[j]
    requires forall i :: 0 <= i < |names| ==> |names[i]| == 0 || names[i][0] != '/'
    ensures var ps := IndexEntries(dir, names, accept, load).paths;
      forall i, j :: 0 <= i < j < |ps| ==> ps[i] != ps[j]
    decreases |names|
  {
    if |names| > 0 {
      var init := names[..|names| - 1];
      var name := names[|names| - 1];
      var path := JoinPath(dir, name);
      IndexEntriesDistinct(dir, init, accept, load);
      IndexEntriesMembership(dir, init, accept, load, path);
      if path in IndexEntries(dir, init, accept, load).paths {
        var i :| Contributes(dir, init, accept, load, i, path);
        JoinPathInjective(dir, init[i], name);
        assert false;
      }
    }
  }

  /** With a listing of distinct relative names, the library index has distinct paths. */
  lemma IndexLibraryDistinct(dir: string, names: seq<string>, load: string -> Option<Feature>)
    requires forall i, j :: 0 <= i < j < |names| ==> names[i] != names[j]
    requires forall i :: 0 <= i < |names| ==> |names[i]| == 0 || names[i][0] != '/'
    ensures var ps := IndexLibrary(dir, names, load).paths;
      forall i, j :: 0 <= i < j < |ps| ==> ps[i] != ps[j]
  {
    IndexEntriesDistinct(dir, names, IsLibraryImage, load);
    assert IndexLibrary(dir, names, load) == IndexEntries(dir, names, IsLibraryImage, load);
  }
}
