/**
 * The file collector's filter: given the output of a recursive directory
 * traversal, the full paths of the files whose name ends in ".png", in
 * traversal order.
 */
module Paths {

  /** The image extension the collector keeps (case-sensitive). */
  const PngSuffix: string := ".png"

  /** One step of the traversal: a directory, its sub-directory names and its file names. */
  datatype WalkEntry = WalkEntry(root: string, dirs: seq<string>, filenames: seq<string>)

  /** `s` ends with `suffix`, as Python's `str.endswith`. */
  predicate EndsWith(s: string, suffix: string)
  {
    |suffix| <= |s| && s[|s| - |suffix|..] == suffix
  }

  /** POSIX `os.path.join(root, name)`: an absolute `name` replaces `root`;
      otherwise a separator is inserted unless `root` is empty or already ends in one. */
  function JoinPath(root: string, name: string): string
  {
    if |name| > 0 && name[0] == '/' then name
    else if root == [] || root[|root| - 1] == '/' then root + name
    else root + "/" + name
  }

  /** What precedes `name` in `JoinPath(root, name)` is empty or ends in a separator. */
  lemma JoinPathShape(root: string, name: string)
    ensures exists head: string :: JoinPath(root, name) == head + name && (head == [] || head[|head| - 1] == '/')
  {
    if |name| > 0 && name[0] == '/' {
      assert JoinPath(root, name) == [] + name;
    } else if root == [] || root[|root| - 1] == '/' {
    } else {
      assert JoinPath(root, name) == (root + "/") + name;
    }
  }

  /** For a suffix without a separator, the joined path ends with it exactly when the name does. */
  lemma JoinPathEndsWith(root: string, name: string, suffix: string)
    requires '/' !in suffix
    ensures EndsWith(JoinPath(root, name), suffix) <==> EndsWith(name, suffix)
  {
    JoinPathShape(root, name);
    var head: string :| JoinPath(root, name) == head + name && (head == [] || head[|head| - 1] == '/');
    var p := head + name;
    if |suffix| <= |name| {
      assert p[|p| - |suffix|..] == name[|name| - |suffix|..];
    } else if head != [] {
      // A longer suffix would reach back over the separator that ends `head`.
      if |suffix| <= |p| {
        var tail := p[|p| - |suffix|..];
        assert tail[|suffix| - |name| - 1] == '/';
      }
    }
  }

  /** The joined paths of the PNG files among `names`, in order. */
  function PngPaths(root: string, names: seq<string>): seq<string>
  {
    if names == [] then []
    else
      var last := names[|names| - 1];
      PngPaths(root, names[..|names| - 1]) + (if EndsWith(last, PngSuffix) then [JoinPath(root, last)] else [])
  }

  /** Everything the collector appends for a whole traversal, in traversal order. */
  function Collected(walk: seq<WalkEntry>): seq<string>
  {
    if walk == [] then []
    else
      var last := walk[|walk| - 1];
      Collected(walk[..|walk| - 1]) + PngPaths(last.root, last.filenames)
  }

  /** Filtering splits over concatenation of the name list, so order is kept. */
  lemma {:induction false} PngPathsAppend(root: string, xs: seq<string>, ys: seq<string>)
    ensures PngPaths(root, xs + ys) == PngPaths(root, xs) + PngPaths(root, ys)
  {
    if ys == [] {
      assert xs + ys == xs;
    } else {
      var zs := xs + ys;
      assert zs[..|zs| - 1] == xs + ys[..|ys| - 1];
      PngPathsAppend(root, xs, ys[..|ys| - 1]);
    }
  }

  /** Collecting splits over concatenation of traversals, so traversal order is kept. */
  lemma {:induction false} CollectedAppend(a: seq<WalkEntry>, b: seq<WalkEntry>)
    ensures Collected(a + b) == Collected(a) + Collected(b)
  {
    if b == [] {
      assert a + b == a;
    } else {
      var c := a + b;
      assert c[..|c| - 1] == a + b[..|b| - 1];
      CollectedAppend(a, b[..|b| - 1]);
    }
  }

  /** A single file name contributes its joined path if it is a PNG, and nothing otherwise. */
  lemma PngPathsSingle(root: string, name: string)
    ensures PngPaths(root, [name]) == if EndsWith(name, PngSuffix) then [JoinPath(root, name)] else []
  {
    assert [name][..0] == [];
  }

  /** Every path of `PngPaths` is the join of a PNG name from the list. */
  lemma {:induction false} PngPathsSound(root: string, names: seq<string>, p: string)
    requires p in PngPaths(root, names)
    ensures exists j :: 0 <= j < |names| && EndsWith(names[j], PngSuffix) && p == JoinPath(root, names[j])
  {
    var init := names[..|names| - 1];
    if p in PngPaths(root, init) {
      PngPathsSound(root, init, p);
      var j :| 0 <= j < |init| && EndsWith(init[j], PngSuffix) && p == JoinPath(root, init[j]);
      assert names[j] == init[j];
    } else {
      assert names[|names| - 1] == names[|names| - 1];
    }
  }

  /** Every PNG name in the list has its joined path in `PngPaths`. */
  lemma {:induction false} PngPathsComplete(root: string, names: seq<string>, j: nat)
    requires j < |names| && EndsWith(names[j], PngSuffix)
    ensures JoinPath(root, names[j]) in PngPaths(root, names)
  {
    var init := names[..|names| - 1];
    if j < |names| - 1 {
      assert names[j] == init[j];
      PngPathsComplete(root, init, j);
    }
  }

  /** Soundness: a collected path is the join of some directory of the traversal
      with one of its file names, and that name ends in ".png". */
  lemma {:induction false} CollectedSound(walk: seq<WalkEntry>, p: string)
    requires p in Collected(walk)
    ensures exists i, j :: (0 <= i < |walk| && 0 <= j < |walk[i].filenames| &&
      EndsWith(walk[i].filenames[j], PngSuffix) && p == JoinPath(walk[i].root, walk[i].filenames[j]))
  {
    var init := walk[..|walk| - 1];
    var last := walk[|walk| - 1];
    if p in Collected(init) {
      CollectedSound(init, p);
      var i, j :| 0 <= i < |init| && 0 <= j < |init[i].filenames| &&
        EndsWith(init[i].filenames[j], PngSuffix) && p == JoinPath(init[i].root, init[i].filenames[j]);
      assert walk[i] == init[i];
    } else {
      PngPathsSound(last.root, last.filenames, p);
      var j :| 0 <= j < |last.filenames| && EndsWith(last.filenames[j], PngSuffix) &&
        p == JoinPath(last.root, last.filenames[j]);
      assert walk[|walk| - 1].filenames[j] == last.filenames[j];
    }
  }

  /** Completeness: the path of every PNG file the traversal reports is collected. */
  lemma {:induction false} CollectedComplete(walk: seq<WalkEntry>, i: nat, j: nat)
    requires i < |walk| && j < |walk[i].filenames| && EndsWith(walk[i].filenames[j], PngSuffix)
    ensures JoinPath(walk[i].root, walk[i].filenames[j]) in Collected(walk)
  {
    var init := walk[..|walk| - 1];
    if i < |walk| - 1 {
      assert walk[i] == init[i];
      CollectedComplete(init, i, j);
    } else {
      PngPathsComplete(walk[i].root, walk[i].filenames, j);
    }
  }

  /** Every collected path ends in ".png", and so names a PNG file. */
  lemma CollectedArePng(walk: seq<WalkEntry>, p: string)
    requires p in Collected(walk)
    ensures EndsWith(p, PngSuffix)
  {
    CollectedSound(walk, p);
    var i, j :| 0 <= i < |walk| && 0 <= j < |walk[i].filenames| &&
      EndsWith(walk[i].filenames[j], PngSuffix) && p == JoinPath(walk[i].root, walk[i].filenames[j]);
    JoinPathEndsWith(walk[i].root, walk[i].filenames[j], PngSuffix);
  }

  /** The join of a name that does not end in ".png" never ends in ".png",
      so no such file can appear among the collected paths. */
  lemma NonPngNeverCollected(walk: seq<WalkEntry>, root: string, name: string)
    requires !EndsWith(name, PngSuffix)
    ensures JoinPath(root, name) !in Collected(walk)
  {
    JoinPathEndsWith(root, name, PngSuffix);
    if JoinPath(root, name) in Collected(walk) {
      CollectedArePng(walk, JoinPath(root, name));
    }
  }
}
