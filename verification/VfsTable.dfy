/** The mount table: a linked list that is searched for the first match. */
module VfsTable {
  import opened VfsPaths

  /** One entry.  `obj` names the file system. */
  class Mount {
    const str: Path
    const obj: int
    var next: Mount?

    constructor (str: Path, obj: int)
      ensures this.str == str && this.obj == obj && next == null
    {
      this.str, this.obj, this.next := str, obj, null;
    }
  }

  /** The volume relative paths belong to. */
  datatype Volume = VirtualRoot | Missing | In(mount: Mount)

  datatype Target = Named(str: Path) | Object(obj: int)

  predicate Names(target: Target, mount: Mount) {
    match target
    case Named(str) => str == mount.str
    case Object(obj) => obj == mount.obj
  }

  /** The mount points in the order of the search. */
  function Points(nodes: seq<Mount>): (ms: seq<Path>)
    ensures |ms| == |nodes| && forall i :: 0 <= i < |ms| ==> ms[i] == nodes[i].str
  {
    seq(|nodes|, i requires 0 <= i < |nodes| => nodes[i].str)
  }

  function NodeAt(nodes: seq<Mount>, i: nat): Mount? {
    if i < |nodes| then nodes[i] else null
  }

  function FirstNamed(nodes: seq<Mount>, target: Target, k: nat): (r: nat)
    requires k <= |nodes|
    ensures k <= r <= |nodes| && (r < |nodes| ==> Names(target, nodes[r]))
    ensures forall i :: k <= i < r ==> !Names(target, nodes[i])
    decreases |nodes| - k
  {
    if k == |nodes| || Names(target, nodes[k]) then k else FirstNamed(nodes, target, k + 1)
  }

  /** What is left of `path`, given with its leading slash as `full`. */
  lemma RestsAre(ms: seq<Path>, path: Path, full: Path)
    ensures var k := First(ms, full);
            k < |ms| ==>
              var m, rest := ms[k], RestOf(ms[k], path, full);
              && (m == "/" ==> rest == path)
              && (m != "/" && full == m ==> rest == "/")
              && (m != "/" && full != m ==> rest != "" && full == m + rest && rest[0] == '/')
  {
    var k := First(ms, full);
    if k < |ms| && ms[k] != ROOT {
      RestRebuilds(ms[k], full);
    }
  }

  function RestOf(m: Path, path: Path, full: Path): Path
    requires Holds(m, full)
  {
    if m == ROOT then path else Rest(m, full)
  }

  class Table {
    var first: Mount?
    var cur: Volume
    ghost var nodes: seq<Mount>

    ghost predicate Linked()
      reads this, nodes
    {
      && first == NodeAt(nodes, 0)
      && (forall i :: 0 <= i < |nodes| ==> nodes[i].next == NodeAt(nodes, i + 1))
      && (forall i, j :: 0 <= i < j < |nodes| ==> nodes[i] != nodes[j])
    }

    /** Whatever was mounted and unmounted, the table is in order. */
    ghost predicate Valid()
      reads this, nodes
    {
      Linked() && AllNormal(Points(nodes)) && Ordered(Points(nodes))
    }

    constructor ()
      ensures Valid() && nodes == [] && cur == VirtualRoot
    {
      first, cur, nodes := null, VirtualRoot, [];
    }

    /** Where a path is: below a mount, in the virtual root directory, or nowhere. */
    method Lookup(path: Path) returns (where: Volume, rest: Path)
      requires Valid()
      ensures var absolute := path != "" && path[0] == '/';
              var full := if absolute then path else "/" + path;
              var k := First(Points(nodes), full);
              if !absolute && cur != VirtualRoot then where == cur && rest == path
              else if full == "/" then where == VirtualRoot
              else if k < |nodes| then where == In(nodes[k]) && rest == RestOf(nodes[k].str, path, full)
              else if absolute then where == Missing
              else where == VirtualRoot && rest == path
      ensures where.In? && (path == "" || path[0] != '/') && cur != VirtualRoot ==> rest == path
      ensures where.In? && ((path != "" && path[0] == '/') || cur == VirtualRoot) ==>
                var m := where.mount.str;
                var full := if path != "" && path[0] == '/' then path else "/" + path;
                && (m == "/" ==> rest == path)
                && (m != "/" && full == m ==> rest == "/")
                && (m != "/" && full != m ==> full == m + rest && rest[0] == '/')
    {
      ghost var full := if path != "" && path[0] == '/' then path else "/" + path;
      RestsAre(Points(nodes), path, full);
      hide First, Holds, Rest, RestOf;
      rest := path;
      var absolute := path != "" && path[0] == '/';
      if absolute || cur == VirtualRoot {
        var p := if absolute then path[1..] else path;
        assert absolute ==> "/" + p == path;
        if p == "" {
          return VirtualRoot, rest;
        }
        var vfs;
        vfs, rest := Search(path, p);
        if vfs != null {
          return In(vfs), rest;
        }
        if absolute {
          return Missing, path;
        }
      }
      return cur, path;
    }

    /** Searches the list; `p` is the path without its leading slash. */
    method Search(path: Path, p: Path) returns (vfs: Mount?, rest: Path)
      requires Valid()
      ensures var k := First(Points(nodes), "/" + p);
              && vfs == NodeAt(nodes, k)
              && (k < |nodes| ==> rest == RestOf(nodes[k].str, path, "/" + p))
    {
      hide Holds, Rest, Ordered;
      vfs, rest := first, path;
      ghost var i, ms := 0, Points(nodes);
      while vfs != null
        invariant i <= |nodes| && vfs == NodeAt(nodes, i) && FirstFrom(ms, "/" + p, i) == First(ms, "/" + p)
        decreases |nodes| - i
      {
        assert Normal(ms[i]);
        var hit;
        hit, rest := Check(vfs.str, path, p);
        if hit {
          return;
        }
        vfs := vfs.next;
        i := i + 1;
      }
    }

    /** Mounts a file system unless the point is in use; it is searched before the root
        mounts and after everything else. */
    method MountAt(str: Path, obj: int) returns (ok: bool, ghost added: Mount)
      requires Valid() && Normal(str)
      modifies this`first, this`nodes, nodes
      ensures Valid() && ok == Free(Points(old(nodes)), str)
      ensures fresh(added) && added.str == str && added.obj == obj
      ensures nodes == if ok then Inserted(old(nodes), Slot(Points(old(nodes))), added) else old(nodes)
    {
      hide Ordered, AllNormal, Inserted, Slot;
      ghost var ms := Points(nodes);
      var vfs := new Mount(str, obj);
      added := vfs;
      var existing, rest := Lookup(str);
      RootHolds(str);
      if existing.In? {
        NodesNormal(nodes, First(ms, str));
        if !(|vfs.str| != 1 && |existing.mount.str| == 1) {
          return false, added;
        }
      }
      MountKeepsOrder(ms, str);
      Insert(vfs);
      PointsInserted(old(nodes), Slot(ms), vfs);
      ok := true;
    }

    /** Links `vfs` in before the first root mount. */
    method Insert(vfs: Mount)
      requires Valid() && vfs !in nodes
      modifies this`first, this`nodes, nodes, vfs`next
      ensures Linked() && nodes == Inserted(old(nodes), Slot(Points(old(nodes))), vfs)
    {
      hide Ordered, Inserted;
      var prev: Mount? := null;
      var at := first;
      ghost var i, k := 0, Slot(Points(nodes));
      while at != null && |at.str| != 1
        invariant i <= k && at == NodeAt(nodes, i) && prev == (if i == 0 then null else nodes[i - 1])
        decreases |nodes| - i
      {
        prev := at;
        at := at.next;
        i := i + 1;
      }
      SlotFound(Points(nodes), i);
      Link(prev, at, vfs, i);
    }

    method Link(prev: Mount?, at: Mount?, vfs: Mount, ghost i: nat)
      requires Linked() && i <= |nodes| && at == NodeAt(nodes, i) && prev == (if i == 0 then null else nodes[i - 1])
      requires vfs !in nodes
      modifies this`first, this`nodes, nodes, vfs`next
      ensures Linked() && nodes == Inserted(old(nodes), i, vfs)
    {
      vfs.next := at;
      if prev == null {
        first := vfs;
      } else {
        prev.next := vfs;
      }
      InsertedParts(nodes, i, vfs);
      nodes := Inserted(nodes, i, vfs);
      hide Inserted;
      forall j | 0 <= j < |nodes| ensures nodes[j].next == NodeAt(nodes, j + 1) {
        assert j > i ==> nodes[j] == old(nodes)[j - 1];
      }
      forall j, k | 0 <= j < k < |nodes| ensures nodes[j] != nodes[k] {
        assert k > i ==> nodes[k] == old(nodes)[k - 1];
        assert j > i ==> nodes[j] == old(nodes)[j - 1];
      }
    }

    /** Takes out the first mount that is named; if it was the current volume, the virtual
        root becomes current. */
    method Umount(target: Target) returns (ok: bool)
      requires Valid()
      modifies this`first, this`nodes, this`cur, nodes
      ensures Valid()
      ensures var k := FirstNamed(old(nodes), target, 0);
              && (ok <==> k < |old(nodes)|)
              && nodes == (if ok then Removed(old(nodes), k) else old(nodes))
              && cur == (if ok && old(cur) == In(old(nodes)[k]) then VirtualRoot else old(cur))
    {
      hide Ordered, Removed;
      var prev: Mount? := null;
      var at := first;
      ghost var i := 0;
      while at != null && !Names(target, at)
        invariant i <= |nodes| && at == NodeAt(nodes, i) && prev == (if i == 0 then null else nodes[i - 1])
        invariant FirstNamed(nodes, target, i) == FirstNamed(nodes, target, 0)
        decreases |nodes| - i
      {
        prev := at;
        at := at.next;
        i := i + 1;
      }
      if at == null {
        return false;
      }
      UnmountKeepsOrder(Points(nodes), i);
      PointsRemoved(nodes, i);
      Unlink(prev, at, i);
      LeaveVolume(at);
      ok := true;
    }

    method LeaveVolume(at: Mount)
      requires Valid()
      modifies this`cur
      ensures Valid() && cur == if old(cur) == In(at) then VirtualRoot else old(cur)
    {
      if cur == In(at) {
        cur := VirtualRoot;
      }
    }

    method Unlink(prev: Mount?, at: Mount, ghost i: nat)
      requires Linked() && i < |nodes| && at == nodes[i] && prev == (if i == 0 then null else nodes[i - 1])
      modifies this`first, this`nodes, nodes
      ensures Linked() && nodes == Removed(old(nodes), i)
    {
      if prev == null {
        first := at.next;
      } else {
        prev.next := at.next;
      }
      RemovedParts(nodes, i);
      nodes := Removed(nodes, i);
      hide Removed;
      forall j | 0 <= j < |nodes| ensures nodes[j].next == NodeAt(nodes, j + 1) {
        assert nodes[j] == old(nodes)[if j < i then j else j + 1];
      }
    }
  }

  /** Whether the mount at `m` holds the path, as the search finds it out. */
  method Check(m: Path, path: Path, p: Path) returns (hit: bool, rest: Path)
    requires Normal(m)
    ensures hit <==> Holds(m, "/" + p)
    ensures hit ==> rest == RestOf(m, path, "/" + p)
  {
    var len := |m| - 1;
    SlashedPrefix(m, p);
    RootHolds(m);
    if len == 0 {
      return true, path;
    }
    if len <= |p| && p[..len] == m[1..] {
      if len == |p| {
        return true, "/";
      }
      if p[len] == '/' {
        return true, p[len..];
      }
    }
    return false, path;
  }

  /** Comparing without the leading slash is comparing with it. */
  lemma SlashedPrefix(m: Path, p: Path)
    requires Normal(m)
    ensures var len := |m| - 1;
            Above(m, "/" + p) <==> len <= |p| && p[..len] == m[1..] && (len == |p| || p[len] == '/')
    ensures |m| < |p| + 1 ==> ("/" + p)[|m|..] == p[|m| - 1..]
  {
    var full := "/" + p;
    if |m| <= |full| {
      assert full[..|m|] == "/" + p[..|m| - 1];
      assert m == "/" + m[1..];
    }
  }

  lemma RootHolds(m: Path)
    requires Normal(m)
    ensures |m| == 1 <==> m == ROOT
    ensures m == "/" + m[1..]
  {
  }

  lemma NodesNormal(nodes: seq<Mount>, k: nat)
    requires AllNormal(Points(nodes)) && k < |nodes|
    ensures Normal(nodes[k].str) && (|nodes[k].str| == 1 <==> nodes[k].str == ROOT)
  {
    assert Normal(Points(nodes)[k]);
    RootHolds(nodes[k].str);
  }

  lemma SlotFound(ms: seq<Path>, i: nat)
    requires AllNormal(ms) && i <= Slot(ms) && (i == |ms| || |ms[i]| == 1)
    ensures i == Slot(ms)
  {
    if i < |ms| {
      RootHolds(ms[i]);
    }
  }

  lemma InsertedParts<T>(s: seq<T>, k: nat, x: T)
    requires k <= |s|
    ensures var r := Inserted(s, k, x);
            && |r| == |s| + 1 && r[k] == x
            && (forall j :: 0 <= j < k ==> r[j] == s[j])
            && (forall j :: k < j < |r| ==> r[j] == s[j - 1])
  {
  }

  lemma RemovedParts<T>(s: seq<T>, k: nat)
    requires k < |s|
    ensures var r := Removed(s, k);
            && |r| == |s| - 1
            && (forall j :: 0 <= j < k ==> r[j] == s[j])
            && (forall j :: k <= j < |r| ==> r[j] == s[j + 1])
  {
  }

  lemma PointsInserted(nodes: seq<Mount>, k: nat, vfs: Mount)
    requires k <= |nodes|
    ensures Points(Inserted(nodes, k, vfs)) == Inserted(Points(nodes), k, vfs.str)
  {
  }

  lemma PointsRemoved(nodes: seq<Mount>, k: nat)
    requires k < |nodes|
    ensures Points(Removed(nodes, k)) == Removed(Points(nodes), k)
  {
  }
}
