/** Mount points as path prefixes, and the order that makes the first match the longest. */
module VfsPaths {

  type Path = seq<char>

  const ROOT: Path := "/"

  /** An absolute mount point that does not end in a slash, or the root itself. */
  predicate Normal(m: Path) {
    |m| > 0 && m[0] == '/' && (|m| > 1 ==> m[|m| - 1] != '/')
  }

  /** `m` is `path` or one of the directories above it. */
  predicate Above(m: Path, path: Path) {
    |m| <= |path| && path[..|m|] == m && (|m| == |path| || path[|m|] == '/')
  }

  /** Whether the mount at `m` holds `path`. */
  predicate Holds(m: Path, path: Path) {
    m == ROOT || Above(m, path)
  }

  /** The root mounts come last, and nothing is listed after a directory above it. */
  /** A mount point holds what is mounted there: the path itself and all paths below it, and at
      the root everything. */
  lemma HoldsMeans(m: Path, path: Path)
    ensures Holds(m, path) <==> m == "/" || path == m || exists more :: path == m + "/" + more
  {
    if Holds(m, path) && m != "/" && path != m {
      assert path == m + "/" + path[|m| + 1..];
    }
    forall more | path == m + "/" + more ensures Above(m, path) {
      assert path[|m|] == '/';
    }
  }

  predicate Ordered(ms: seq<Path>) {
    && (forall i, j :: 0 <= i < j < |ms| && ms[i] == ROOT ==> ms[j] == ROOT)
    && (forall i, j :: 0 <= i < j < |ms| && ms[i] != ROOT && ms[j] != ROOT ==> !Above(ms[i], ms[j]))
  }

  predicate AllNormal(ms: seq<Path>) {
    forall i :: 0 <= i < |ms| ==> Normal(ms[i])
  }

  /** The place of the first mount that holds `path`. */
  function FirstFrom(ms: seq<Path>, path: Path, k: nat): (r: nat)
    requires k <= |ms|
    ensures k <= r <= |ms|
    ensures r < |ms| ==> Holds(ms[r], path)
    ensures forall i :: k <= i < r ==> !Holds(ms[i], path)
    decreases |ms| - k
  {
    if k == |ms| || Holds(ms[k], path) then k else FirstFrom(ms, path, k + 1)
  }

  function First(ms: seq<Path>, path: Path): (r: nat)
    ensures r <= |ms|
    ensures r < |ms| ==> Holds(ms[r], path)
    ensures forall i :: 0 <= i < r ==> !Holds(ms[i], path)
  {
    FirstFrom(ms, path, 0)
  }

  /** Of two directories above the same path one is above the other. */
  lemma AboveCompare(a: Path, b: Path, path: Path)
    requires Above(a, path) && Above(b, path) && |a| <= |b|
    ensures Above(a, b)
  {
    assert b[..|a|] == path[..|b|][..|a|] == path[..|a|];
  }

  /** In an ordered table the first mount that holds a path is the longest one, and no other
      mount of that length holds it except at the root. */
  lemma FirstIsLongest(ms: seq<Path>, path: Path, j: nat)
    requires Ordered(ms) && AllNormal(ms) && j < |ms| && Holds(ms[j], path)
    ensures var i := First(ms, path);
            i <= j && |ms[j]| <= |ms[i]| && (ms[i] != ROOT && j != i ==> |ms[j]| < |ms[i]|)
  {
    var i := First(ms, path);
    if ms[i] != ROOT && j != i && ms[j] != ROOT && |ms[i]| <= |ms[j]| {
      AboveCompare(ms[i], ms[j], path);
    }
  }

  /** What is left of a path below a mount point. */
  function Rest(m: Path, path: Path): Path
    requires Holds(m, path)
  {
    if m == ROOT then path else if |m| == |path| then "/" else path[|m|..]
  }

  /** Mount point and rest give the path back; the mount point itself has the rest "/". */
  lemma RestRebuilds(m: Path, path: Path)
    requires Holds(m, path) && m != ROOT
    ensures Rest(m, path) != "" && Rest(m, path)[0] == '/'
    ensures path == m + Rest(m, path) || (path == m && Rest(m, path) == "/")
  {
  }

  // ---- changes of the table ----

  /** Where a new mount goes: before the first root mount. */
  function Slot(ms: seq<Path>): (k: nat)
    ensures k <= |ms|
    ensures forall i :: 0 <= i < k ==> ms[i] != ROOT
    ensures k < |ms| ==> ms[k] == ROOT
  {
    if ms == [] || ms[0] == ROOT then 0
    else
      var k := Slot(ms[1..]);
      assert forall i :: 1 <= i < k + 1 ==> ms[i] == ms[1..][i - 1];
      k + 1
  }

  function Inserted<T>(s: seq<T>, k: nat, x: T): seq<T>
    requires k <= |s|
  {
    s[..k] + [x] + s[k..]
  }

  function Removed<T>(s: seq<T>, k: nat): seq<T>
    requires k < |s|
  {
    s[..k] + s[k + 1..]
  }

  /** The mount point is not in use: only the root may hold it, and root mounts may pile up. */
  predicate Free(ms: seq<Path>, m: Path) {
    m == ROOT || First(ms, m) == |ms| || ms[First(ms, m)] == ROOT
  }

  /** Mounting at a free point keeps the order. */
  lemma MountKeepsOrder(ms: seq<Path>, m: Path)
    requires Ordered(ms) && AllNormal(ms) && Normal(m) && Free(ms, m)
    ensures Ordered(Inserted(ms, Slot(ms), m)) && AllNormal(Inserted(ms, Slot(ms), m))
  {
    var k := Slot(ms);
    var next := Inserted(ms, k, m);
    forall i, j | 0 <= i < j < |next|
      ensures next[i] == ROOT ==> next[j] == ROOT
      ensures next[i] != ROOT && next[j] != ROOT ==> !Above(next[i], next[j])
    {
      assert i < k ==> next[i] == ms[i];
      assert i > k ==> next[i] == ms[i - 1];
      assert j > k ==> next[j] == ms[j - 1];
      assert j < k ==> next[j] == ms[j];
      if j == k && m != ROOT {
        assert i < First(ms, m);
      }
    }
  }

  /** Unmounting keeps the order. */
  lemma UnmountKeepsOrder(ms: seq<Path>, k: nat)
    requires Ordered(ms) && AllNormal(ms) && k < |ms|
    ensures Ordered(Removed(ms, k)) && AllNormal(Removed(ms, k))
  {
    var next := Removed(ms, k);
    forall i, j | 0 <= i < j < |next|
      ensures next[i] == ROOT ==> next[j] == ROOT
      ensures next[i] != ROOT && next[j] != ROOT ==> !Above(next[i], next[j])
    {
      var p, q := if i < k then i else i + 1, if j < k then j else j + 1;
      assert next[i] == ms[p] && next[j] == ms[q];
    }
  }

  /** Without the check a directory could be listed before one below it, and hide it: the
      order is what the check is for. */
  lemma OrderNeeded()
    ensures var ms: seq<Path> := ["/a", "/a/b"];
            AllNormal(ms) && !Ordered(ms) && First(ms, "/a/b/c") == 0 && Holds(ms[1], "/a/b/c")
  {
    assert "/a/b/c"[..2] == "/a" && "/a/b/c"[..4] == "/a/b" && "/a/b"[..2] == "/a";
    assert Above(["/a", "/a/b"][0], ["/a", "/a/b"][1]);
  }
}
