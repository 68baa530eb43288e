/** Day 7: the directories of a file system rebuilt from a terminal session, kept in an arena
    (a sequence indexed by directory number) with parent and child links by index. */
module Directories {
  import opened Options

  datatype Directory = Directory(
    idx: nat,
    size: nat,
    name: string,
    parent: Option<nat>,
    children: seq<nat>,
    files: map<string, nat>)

  /** `Directory::new`: the given index, name and parent, no size, no children and no files. */
  function NewDirectory(idx: nat, name: string, parent: Option<nat>): (d: Directory)
    ensures d.idx == idx && d.name == name && d.parent == parent
    ensures d.size == 0 && d.children == [] && d.files == map[]
  {
    Directory(idx, 0, name, parent, [], map[])
  }

  /** Every directory sits at its own index. */
  predicate Indexed(arena: seq<Directory>)
  {
    forall i :: 0 <= i < |arena| ==> arena[i].idx == i
  }

  /** Only directory 0 is parentless, and every other parent comes earlier in the arena. */
  predicate ParentsBelow(arena: seq<Directory>)
  {
    |arena| > 0 && arena[0].parent.None?
    && forall i :: 0 < i < |arena| ==> arena[i].parent.Some? && arena[i].parent.value < i
  }

  /** Every child comes later in the arena and points back to its parent. */
  predicate ChildrenPointBack(arena: seq<Directory>)
  {
    forall i, k :: 0 <= i < |arena| && 0 <= k < |arena[i].children| ==>
      i < arena[i].children[k] < |arena| && arena[arena[i].children[k]].parent == Some(i)
  }

  /** Every directory but the first is listed among its parent's children. */
  predicate ParentsListChildren(arena: seq<Directory>)
    requires ParentsBelow(arena)
  {
    forall i :: 0 < i < |arena| ==> ListedByParent(arena, i)
  }

  /** Directory `i` appears among its parent's children. */
  predicate ListedByParent(arena: seq<Directory>, i: nat)
    requires ParentsBelow(arena) && 0 < i < |arena|
  {
    i in arena[arena[i].parent.value].children
  }

  /** Children are listed in the order they were created, without repeats. */
  predicate ChildrenInOrder(arena: seq<Directory>)
  {
    forall i, k, k' :: 0 <= i < |arena| && 0 <= k < k' < |arena[i].children| ==>
      arena[i].children[k] < arena[i].children[k']
  }

  /** The shape every operation of the parser keeps: a tree rooted at directory 0. */
  predicate ArenaValid(arena: seq<Directory>)
  {
    Indexed(arena) && ParentsBelow(arena) && ChildrenPointBack(arena)
    && ParentsListChildren(arena) && ChildrenInOrder(arena)
  }

  /** The directory `i`, its parent, its parent's parent and so on up to directory 0. */
  function Path(arena: seq<Directory>, i: nat): (path: seq<nat>)
    requires ParentsBelow(arena) && i < |arena|
    ensures |path| > 0 && path[0] == i && forall k :: 0 <= k < |path| ==> path[k] <= i
    decreases i
  {
    match arena[i].parent
    case None => [i]
    case Some(p) => [i] + Path(arena, p)
  }

  /** A path starts at its directory, follows parent links with falling indices, and ends at
      directory 0. */
  lemma {:induction false} PathShape(arena: seq<Directory>, i: nat)
    requires ParentsBelow(arena) && i < |arena|
    ensures var path := Path(arena, i);
      |path| > 0 && path[0] == i && path[|path| - 1] == 0
      && (forall k :: 0 <= k < |path| ==> path[k] <= i)
      && (forall k :: 0 <= k < |path| - 1 ==> arena[path[k]].parent == Some(path[k + 1]) && path[k + 1] < path[k])
      && arena[path[|path| - 1]].parent.None?
    decreases i
  {
    match arena[i].parent
    case None =>
    case Some(p) =>
      PathShape(arena, p);
  }

  /** One step along a path: a directory on it has a parent exactly when it is not the last,
      and that parent is the next directory on the path. */
  lemma PathStep(arena: seq<Directory>, i: nat, k: nat)
    requires ParentsBelow(arena) && i < |arena| && k < |Path(arena, i)|
    ensures var path := Path(arena, i);
      path[k] < |arena|
      && (arena[path[k]].parent.Some? <==> k + 1 < |path|)
      && (k + 1 < |path| ==> arena[path[k]].parent == Some(path[k + 1]))
  {
    PathShape(arena, i);
    var path := Path(arena, i);
    if k + 1 == |path| {
      assert arena[path[|path| - 1]].parent.None?;
    } else {
      assert arena[path[k]].parent == Some(path[k + 1]);
    }
  }

  /** Directory 0 is on every path. */
  lemma RootOnEveryPath(arena: seq<Directory>, i: nat)
    requires ParentsBelow(arena) && i < |arena|
    ensures 0 in Path(arena, i)
  {
    PathShape(arena, i);
  }

  /** A path is closed under parents: the parent of a directory on it is on it too. */
  lemma ParentOnPath(arena: seq<Directory>, i: nat, c: nat)
    requires ParentsBelow(arena) && i < |arena| && c in Path(arena, i) && arena[c].parent.Some?
    ensures arena[c].parent.value in Path(arena, i)
  {
    PathShape(arena, i);
    var path := Path(arena, i);
    var k :| 0 <= k < |path| && path[k] == c;
    assert k < |path| - 1;
  }

  /** Two directories on one path with the same parent are the same directory. */
  lemma OneChildOnPath(arena: seq<Directory>, i: nat, c: nat, c': nat)
    requires ParentsBelow(arena) && i < |arena|
    requires c in Path(arena, i) && c' in Path(arena, i)
    requires arena[c].parent.Some? && arena[c].parent == arena[c'].parent
    ensures c == c'
  {
    PathShape(arena, i);
    var path := Path(arena, i);
    var k :| 0 <= k < |path| && path[k] == c;
    var k' :| 0 <= k' < |path| && path[k'] == c';
    PathDecreasing(arena, i);
  }

  /** Indices along a path strictly fall, so a path has no repeats. */
  lemma PathDecreasing(arena: seq<Directory>, i: nat)
    requires ParentsBelow(arena) && i < |arena|
    ensures forall k, k' :: 0 <= k < k' < |Path(arena, i)| ==> Path(arena, i)[k'] < Path(arena, i)[k]
  {
    PathShape(arena, i);
    var path := Path(arena, i);
    forall k, k' | 0 <= k < k' < |path| ensures path[k'] < path[k] {
      StrictlyFalling(path, k, k');
    }
  }

  lemma {:induction false} StrictlyFalling(path: seq<nat>, k: nat, k': nat)
    requires forall j :: 0 <= j < |path| - 1 ==> path[j + 1] < path[j]
    requires k < k' < |path|
    ensures path[k'] < path[k]
    decreases k' - k
  {
    if k + 1 < k' {
      StrictlyFalling(path, k + 1, k');
    }
  }

  /** The arena after adding `value` to the size of directory `cursor` and of each directory
      above it, as `propagate_value` does. */
  function Propagated(arena: seq<Directory>, cursor: nat, value: nat): (r: seq<Directory>)
    requires ParentsBelow(arena) && cursor < |arena|
    ensures |r| == |arena|
  {
    seq(|arena|, i requires 0 <= i < |arena| =>
      if i in Path(arena, cursor) then arena[i].(size := arena[i].size + value) else arena[i])
  }

  /** Propagating a size changes sizes only, and keeps the tree's shape. */
  lemma PropagatedShape(arena: seq<Directory>, cursor: nat, value: nat)
    requires ArenaValid(arena) && cursor < |arena|
    ensures var r := Propagated(arena, cursor, value);
      ArenaValid(r)
      && forall i :: 0 <= i < |arena| ==> r[i] == arena[i].(size := r[i].size)
  {
    var r := Propagated(arena, cursor, value);
    forall i | 0 <= i < |arena| ensures r[i] == arena[i].(size := r[i].size) {
    }
    forall i | 0 < i < |arena| ensures ListedByParent(r, i) {
      assert ListedByParent(arena, i);
    }
  }

  /** The total size of the directories listed in `children`. */
  function ChildSum(arena: seq<Directory>, children: seq<nat>): nat
    requires forall k :: 0 <= k < |children| ==> children[k] < |arena|
  {
    if children == [] then 0
    else ChildSum(arena, children[..|children| - 1]) + arena[children[|children| - 1]].size
  }

  /** The size bookkeeping the parser keeps: each directory's size is the total of the file
      listings read in it (`listed`) plus the sizes of its children, so that it is the total
      listed anywhere below it. */
  predicate SizesAddUp(arena: seq<Directory>, listed: seq<nat>)
    requires ChildrenPointBack(arena)
  {
    |listed| == |arena|
    && forall i {:trigger listed[i]} :: 0 <= i < |arena| ==> arena[i].size == listed[i] + ChildSum(arena, arena[i].children)
  }

  /** Sums over the same children agree when those children's sizes agree. */
  lemma {:induction false} ChildSumUnchanged(arena: seq<Directory>, arena': seq<Directory>, children: seq<nat>)
    requires forall k :: 0 <= k < |children| ==> children[k] < |arena| && children[k] < |arena'|
    requires forall k :: 0 <= k < |children| ==> arena'[children[k]].size == arena[children[k]].size
    ensures ChildSum(arena', children) == ChildSum(arena, children)
  {
    if children != [] {
      ChildSumUnchanged(arena, arena', children[..|children| - 1]);
    }
  }

  /** Sums over children without repeats grow by `value` when exactly one child grows by it. */
  lemma {:induction false} ChildSumOneGrows(arena: seq<Directory>, arena': seq<Directory>, children: seq<nat>, j: nat, value: nat)
    requires forall k :: 0 <= k < |children| ==> children[k] < |arena| && children[k] < |arena'|
    requires forall k, k' :: 0 <= k < k' < |children| ==> children[k] < children[k']
    requires j < |children|
    requires arena'[children[j]].size == arena[children[j]].size + value
    requires forall k :: 0 <= k < |children| && k != j ==> arena'[children[k]].size == arena[children[k]].size
    ensures ChildSum(arena', children) == ChildSum(arena, children) + value
  {
    var last := |children| - 1;
    if j == last {
      ChildSumUnchanged(arena, arena', children[..last]);
    } else {
      ChildSumOneGrows(arena, arena', children[..last], j, value);
    }
  }

  /** Propagating `value` from `cursor` is what reading a listing of that total in `cursor`
      does to the bookkeeping: the sizes still add up, with `cursor`'s own listed total grown by
      `value`. */
  lemma PropagatedSizesAddUp(arena: seq<Directory>, listed: seq<nat>, cursor: nat, value: nat)
    requires ArenaValid(arena) && cursor < |arena| && SizesAddUp(arena, listed)
    ensures ArenaValid(Propagated(arena, cursor, value))
    ensures SizesAddUp(Propagated(arena, cursor, value), listed[cursor := listed[cursor] + value])
  {
    var r := Propagated(arena, cursor, value);
    var listed' := listed[cursor := listed[cursor] + value];
    PropagatedShape(arena, cursor, value);
    forall i | 0 <= i < |arena| ensures r[i].size == listed'[i] + ChildSum(r, r[i].children) {
      assert r[i].children == arena[i].children;
      if i == cursor || i !in Path(arena, cursor) {
        NoChildOnPath(arena, cursor, value, i);
      } else {
        OneChildOnPathGrows(arena, cursor, value, i);
      }
    }
  }

  /** The cursor and the directories off its path have no child on the path. */
  lemma NoChildOnPath(arena: seq<Directory>, cursor: nat, value: nat, i: nat)
    requires ArenaValid(arena) && cursor < |arena| && i < |arena|
    requires i == cursor || i !in Path(arena, cursor)
    ensures ChildSum(Propagated(arena, cursor, value), arena[i].children) == ChildSum(arena, arena[i].children)
  {
    var r := Propagated(arena, cursor, value);
    var children := arena[i].children;
    forall k | 0 <= k < |children| ensures r[children[k]].size == arena[children[k]].size {
      if children[k] in Path(arena, cursor) {
        ParentOnPath(arena, cursor, children[k]);
      }
    }
    ChildSumUnchanged(arena, r, children);
  }

  /** A directory on the path above the cursor has exactly one child on the path, the one just
      before it. */
  lemma OneChildOnPathGrows(arena: seq<Directory>, cursor: nat, value: nat, i: nat)
    requires ArenaValid(arena) && cursor < |arena| && i < |arena|
    requires i != cursor && i in Path(arena, cursor)
    ensures ChildSum(Propagated(arena, cursor, value), arena[i].children) == ChildSum(arena, arena[i].children) + value
  {
    var r := Propagated(arena, cursor, value);
    var children := arena[i].children;
    var j := ChildOnPath(arena, cursor, i);
    forall k | 0 <= k < |children| && k != j ensures r[children[k]].size == arena[children[k]].size {
    }
    ChildSumOneGrows(arena, r, children, j, value);
  }

  /** The index, among the children of a directory on the path above the cursor, of its one
      child on the path. */
  lemma ChildOnPath(arena: seq<Directory>, cursor: nat, i: nat) returns (j: nat)
    requires ArenaValid(arena) && cursor < |arena| && i < |arena|
    requires i != cursor && i in Path(arena, cursor)
    ensures j < |arena[i].children| && arena[i].children[j] in Path(arena, cursor)
    ensures forall k :: 0 <= k < |arena[i].children| && k != j ==> arena[i].children[k] !in Path(arena, cursor)
  {
    var children := arena[i].children;
    var path := Path(arena, cursor);
    PathShape(arena, cursor);
    var n :| 0 <= n < |path| && path[n] == i;
    var c := path[n - 1];
    assert c in path && arena[c].parent == Some(i);
    assert ListedByParent(arena, c);
    j :| 0 <= j < |children| && children[j] == c;
    forall k | 0 <= k < |children| && k != j ensures children[k] !in path {
      if children[k] in path {
        OneChildOnPath(arena, cursor, children[k], c);
      }
    }
  }

  /** The arena after a `dir` line read in `cursor`: a new empty directory at the end, listed
      as `cursor`'s last child. */
  function WithChild(arena: seq<Directory>, cursor: nat, name: string): (r: seq<Directory>)
    requires cursor < |arena|
    ensures |r| == |arena| + 1
  {
    arena[cursor := arena[cursor].(children := arena[cursor].children + [|arena|])]
      + [NewDirectory(|arena|, name, Some(cursor))]
  }

  /** Adding a child keeps the tree's shape and the size bookkeeping, the new directory having
      nothing listed yet. */
  lemma WithChildValid(arena: seq<Directory>, listed: seq<nat>, cursor: nat, name: string)
    requires ArenaValid(arena) && cursor < |arena| && SizesAddUp(arena, listed)
    ensures ArenaValid(WithChild(arena, cursor, name))
    ensures SizesAddUp(WithChild(arena, cursor, name), listed + [0])
  {
    WithChildLinks(arena, cursor, name);
    WithChildSizes(arena, listed, cursor, name);
  }

  lemma WithChildLinks(arena: seq<Directory>, cursor: nat, name: string)
    requires ArenaValid(arena) && cursor < |arena|
    ensures ArenaValid(WithChild(arena, cursor, name))
  {
    WithChildPointsBack(arena, cursor, name);
    WithChildListed(arena, cursor, name);
    WithChildInOrder(arena, cursor, name);
  }

  lemma WithChildPointsBack(arena: seq<Directory>, cursor: nat, name: string)
    requires ArenaValid(arena) && cursor < |arena|
    ensures ChildrenPointBack(WithChild(arena, cursor, name))
  {
    var r := WithChild(arena, cursor, name);
    forall i, k | 0 <= i < |r| && 0 <= k < |r[i].children|
      ensures i < r[i].children[k] < |r| && r[r[i].children[k]].parent == Some(i)
    {
      if i != cursor || k < |arena[cursor].children| {
        assert r[i].children[k] == arena[i].children[k];
      }
    }
  }

  lemma WithChildListed(arena: seq<Directory>, cursor: nat, name: string)
    requires ArenaValid(arena) && cursor < |arena|
    ensures ParentsBelow(WithChild(arena, cursor, name))
    ensures ParentsListChildren(WithChild(arena, cursor, name))
  {
    var r := WithChild(arena, cursor, name);
    var n := |arena|;
    forall i | 0 < i < |r| ensures ListedByParent(r, i) {
      if i < n {
        assert ListedByParent(arena, i);
      } else {
        assert r[cursor].children[|arena[cursor].children|] == n;
      }
    }
  }

  lemma WithChildInOrder(arena: seq<Directory>, cursor: nat, name: string)
    requires ArenaValid(arena) && cursor < |arena|
    ensures ChildrenInOrder(WithChild(arena, cursor, name))
  {
    var r := WithChild(arena, cursor, name);
    forall i, k, k' | 0 <= i < |r| && 0 <= k < k' < |r[i].children|
      ensures r[i].children[k] < r[i].children[k']
    {
      assert r[i].children[k] == arena[i].children[k];
      if i != cursor || k' < |arena[cursor].children| {
        assert r[i].children[k'] == arena[i].children[k'];
      }
    }
  }

  lemma WithChildSizes(arena: seq<Directory>, listed: seq<nat>, cursor: nat, name: string)
    requires ArenaValid(arena) && cursor < |arena| && SizesAddUp(arena, listed)
    ensures ChildrenPointBack(WithChild(arena, cursor, name))
    ensures SizesAddUp(WithChild(arena, cursor, name), listed + [0])
  {
    WithChildPointsBack(arena, cursor, name);
    var r := WithChild(arena, cursor, name);
    forall i | 0 <= i < |r| ensures r[i].size == (listed + [0])[i] + ChildSum(r, r[i].children) {
      WithChildSizeAt(arena, listed, cursor, name, i);
    }
  }

  lemma WithChildSizeAt(arena: seq<Directory>, listed: seq<nat>, cursor: nat, name: string, i: nat)
    requires ArenaValid(arena) && cursor < |arena| && SizesAddUp(arena, listed) && i <= |arena|
    requires ChildrenPointBack(WithChild(arena, cursor, name))
    ensures WithChild(arena, cursor, name)[i].size
      == (listed + [0])[i] + ChildSum(WithChild(arena, cursor, name), WithChild(arena, cursor, name)[i].children)
  {
    var r := WithChild(arena, cursor, name);
    if i < |arena| {
      ChildSumUnchanged(arena, r, arena[i].children);
      if i == cursor {
        assert r[i].children[..|r[i].children| - 1] == arena[i].children;
      }
    }
  }

  /** The arena after the files of a listing are recorded in `cursor`; a name already there
      takes the new size. */
  function WithFiles(arena: seq<Directory>, cursor: nat, files: map<string, nat>): (r: seq<Directory>)
    requires cursor < |arena|
    ensures |r| == |arena|
    ensures forall i :: 0 <= i < |arena| ==> r[i] == arena[i].(files := r[i].files)
    ensures r[cursor].files.Keys == arena[cursor].files.Keys + files.Keys
    ensures forall name :: name in files ==> r[cursor].files[name] == files[name]
  {
    arena[cursor := arena[cursor].(files := arena[cursor].files + files)]
  }

  /** Recording files changes no link. */
  lemma WithFilesLinks(arena: seq<Directory>, cursor: nat, files: map<string, nat>)
    requires ArenaValid(arena) && cursor < |arena|
    ensures ArenaValid(WithFiles(arena, cursor, files))
  {
    var r := WithFiles(arena, cursor, files);
    forall i | 0 < i < |arena| ensures ListedByParent(r, i) {
      assert ListedByParent(arena, i);
    }
  }

  /** Recording files changes no size and no link. */
  lemma WithFilesValid(arena: seq<Directory>, listed: seq<nat>, cursor: nat, files: map<string, nat>)
    requires ArenaValid(arena) && cursor < |arena| && SizesAddUp(arena, listed)
    ensures ArenaValid(WithFiles(arena, cursor, files))
    ensures SizesAddUp(WithFiles(arena, cursor, files), listed)
  {
    var r := WithFiles(arena, cursor, files);
    WithFilesLinks(arena, cursor, files);
    forall i | 0 <= i < |arena| ensures r[i].size == listed[i] + ChildSum(r, r[i].children) {
      ChildSumUnchanged(arena, r, arena[i].children);
    }
  }
}
