/** Deleting a whole directory without recursion (delete_file and rm_dir in src/filesystem.c). */
module FileTree {
  import opened Memory
  import opened FileData
  import opened Directory
  import opened DirBlocks

  const ROOT := 2
  const DOT := 12          // the size of the entry "."

  /** Where each file is, and how deep; this does not change while files are deleted. */
  datatype Plan = Plan(up: map<int, int>, depth: map<int, nat>)

  ghost predicate Planned(p: Plan)
  {
    && p.depth.Keys == p.up.Keys && ROOT in p.up && p.up[ROOT] == ROOT && 0 !in p.up
    && forall x {:trigger UpOk(p, x)} :: x in p.up ==> UpOk(p, x)
  }

  ghost predicate UpOk(p: Plan, x: int)
    requires x in p.up && p.depth.Keys == p.up.Keys
  {
    x != ROOT ==> p.up[x] in p.up && p.depth[x] == p.depth[p.up[x]] + 1
  }

  /** x is r or somewhere below it. */
  ghost predicate Under(p: Plan, x: int, r: int)
    requires Planned(p) && x in p.up
    decreases p.depth[x]
  {
    x == r || (x != ROOT && (assert UpOk(p, x); Under(p, p.up[x], r)))
  }

  ghost predicate Listed(items: seq<Item>, x: int)
  {
    exists i :: 2 <= i < |items| && items[i].inode == x
  }

  /** Directory d: "." and "..", then its files, each once. */
  ghost predicate DirOk(dirs: Dirs, p: Plan, d: int)
    requires d in dirs
  {
    var items := dirs[d];
    && d in p.up && d in p.depth && |items| >= 2 && items[0].inode == d && items[0].size == DOT && items[1].inode == p.up[d]
    && (forall i, j :: 2 <= i < j < |items| ==> items[i].inode != items[j].inode)
    && (forall i :: 2 <= i < |items| ==> ChildOk(dirs, p, d, items[i]))
  }

  ghost predicate ChildOk(dirs: Dirs, p: Plan, d: int, c: Item)
  {
    c.inode in p.up && p.up[c.inode] == d && c.inode != ROOT && (c.IsDir() <==> c.inode in dirs)
  }

  /** File x is listed in a directory that exists. */
  ghost predicate PlaceOk(dirs: Dirs, p: Plan, x: int)
    requires x in p.up
  {
    x != ROOT ==> p.up[x] in dirs && Listed(dirs[p.up[x]], x)
  }

  /** The files of the plan that are allocated form a tree of directories. */
  ghost predicate Tree(dirs: Dirs, inodes: set<int>, p: Plan)
  {
    && Planned(p) && ROOT in dirs
    && (forall d {:trigger DirOk(dirs, p, d)} :: d in dirs ==> DirOk(dirs, p, d))
    && (forall x {:trigger PlaceOk(dirs, p, x)} :: x in p.up && x in inodes ==> PlaceOk(dirs, p, x))
    && (forall d {:trigger ChildrenIn(dirs, inodes, d)} :: d in dirs ==> ChildrenIn(dirs, inodes, d))
  }

  ghost predicate ChildrenIn(dirs: Dirs, inodes: set<int>, d: int)
    requires d in dirs
  {
    d in inodes && forall i :: 2 <= i < |dirs[d]| ==> dirs[d][i].inode in inodes
  }

  // ----- deleting one file -----

  /** The tree after `delete_file`. */
  function Without(dirs: Dirs, dir: int, k: int, x: int): Dirs
    requires dir in dirs && 0 < k < |dirs[dir]|
  {
    dirs[dir := Dropped(dirs[dir], k)] - {x}
  }

  /** What is left after the removal of item k: the others, each as before but perhaps larger. */
  lemma DroppedItems(items: seq<Item>, k: int)
    requires 2 <= k < |items|
    ensures var d := Dropped(items, k);
            && |d| == |items| - 1 && d[0] == items[0] && d[1].inode == items[1].inode
            && forall i :: 0 <= i < |d| ==> var s := items[if i < k then i else i + 1];
                 d[i].inode == s.inode && d[i].kind == s.kind && (d[i].size == s.size || (i == k - 1 && d[i].size == s.size + items[k].size))
  {
  }

  /** A file, or a directory with nothing in it, may go. */
  ghost predicate Deletable(dirs: Dirs, dir: int, k: int, x: int)
  {
    dir in dirs && 2 <= k < |dirs[dir]| && dirs[dir][k].inode == x && (x in dirs ==> |dirs[x]| == 2)
  }

  lemma DeletedDir(dirs: Dirs, inodes: set<int>, p: Plan, dir: int, k: int, x: int)
    requires Tree(dirs, inodes, p) && Deletable(dirs, dir, k, x)
    ensures x != ROOT && x != dir && x in p.up && p.up[x] == dir
    ensures DirOk(Without(dirs, dir, k, x), p, dir) && ChildrenIn(Without(dirs, dir, k, x), inodes - {x}, dir)
  {
    assert DirOk(dirs, p, dir) && ChildrenIn(dirs, inodes, dir);
    var items := dirs[dir];
    assert ChildOk(dirs, p, dir, items[k]) && UpOk(p, x);
    DroppedItems(items, k);
    DroppedUnique(items, k);
    var r, d := Without(dirs, dir, k, x), Dropped(items, k);
    forall i | 2 <= i < |d| ensures ChildOk(r, p, dir, d[i]) && d[i].inode != x {
      var s := items[if i < k then i else i + 1];
      assert ChildOk(dirs, p, dir, s);
    }
  }

  lemma DroppedUnique(items: seq<Item>, k: int)
    requires 2 <= k < |items| && forall i, j :: 2 <= i < j < |items| ==> items[i].inode != items[j].inode
    ensures var d := Dropped(items, k); forall i, j :: 2 <= i < j < |d| ==> d[i].inode != d[j].inode
    ensures forall i :: 2 <= i < |Dropped(items, k)| ==> Dropped(items, k)[i].inode != items[k].inode
  {
    DroppedItems(items, k);
  }

  lemma StillListed(items: seq<Item>, k: int, y: int)
    requires 2 <= k < |items| && Listed(items, y) && items[k].inode != y
    ensures Listed(Dropped(items, k), y)
  {
    DroppedItems(items, k);
    var i :| 2 <= i < |items| && items[i].inode == y;
    assert Dropped(items, k)[if i < k then i else i - 1].inode == y;
  }

  lemma OtherDir(dirs: Dirs, inodes: set<int>, p: Plan, dir: int, k: int, x: int, e: int)
    requires Tree(dirs, inodes, p) && Deletable(dirs, dir, k, x) && e in dirs && e != dir && e != x
    requires x in p.up && p.up[x] == dir
    ensures DirOk(Without(dirs, dir, k, x), p, e) && ChildrenIn(Without(dirs, dir, k, x), inodes - {x}, e)
  {
    assert DirOk(dirs, p, e) && ChildrenIn(dirs, inodes, e);
    var r := Without(dirs, dir, k, x);
    forall i | 2 <= i < |dirs[e]| ensures ChildOk(r, p, e, dirs[e][i]) && dirs[e][i].inode != x {
      assert ChildOk(dirs, p, e, dirs[e][i]);
    }
  }

  /** Deleting a file or an empty directory leaves a tree. */
  lemma DeleteKeepsTree(dirs: Dirs, inodes: set<int>, p: Plan, dir: int, k: int, x: int)
    requires Tree(dirs, inodes, p) && Deletable(dirs, dir, k, x)
    ensures Tree(Without(dirs, dir, k, x), inodes - {x}, p) && x in p.up && p.up[x] == dir && x != ROOT && x != dir && x in inodes
  {
    var r, a := Without(dirs, dir, k, x), inodes - {x};
    DeletedDir(dirs, inodes, p, dir, k, x);
    assert ChildrenIn(dirs, inodes, dir);
    forall e | e in r ensures DirOk(r, p, e) && ChildrenIn(r, a, e) {
      if e != dir { OtherDir(dirs, inodes, p, dir, k, x, e); }
    }
    forall y | y in p.up && y in a ensures PlaceOk(r, p, y) {
      assert PlaceOk(dirs, p, y);
      if y != ROOT && p.up[y] == dir { StillListed(dirs[dir], k, y); }
    }
  }

  // ----- subtrees -----

  /** As long as something is left below a directory, the directory is not empty. */
  lemma {:induction false} NotEmpty(dirs: Dirs, inodes: set<int>, p: Plan, x: int, r: int)
    requires Tree(dirs, inodes, p) && x in p.up && x in inodes && Under(p, x, r) && x != r
    ensures r in dirs && |dirs[r]| > 2
    decreases p.depth[x]
  {
    assert PlaceOk(dirs, p, x) && UpOk(p, x);
    var d := p.up[x];
    if d != r {
      assert ChildrenIn(dirs, inodes, d) && DirOk(dirs, p, d);
      NotEmpty(dirs, inodes, p, d, r);
    }
  }

  /** No directory is deeper than some bound. */
  lemma {:induction false} DepthBound(depth: map<int, nat>) returns (h: nat)
    ensures forall x :: x in depth ==> depth[x] <= h
    decreases |depth|
  {
    h := 0;
    if exists x :: x in depth {
      var x :| x in depth;
      var rest := depth - {x};
      assert rest.Keys == depth.Keys - {x};
      var g := DepthBound(rest);
      h := if depth[x] > g then depth[x] else g;
      forall y | y in depth ensures depth[y] <= h { if y != x { assert rest[y] == depth[y]; } }
    }
  }

  /** The first three entries are where rm_dir looks for them, and after two entries the block ends if there are no more. */
  lemma Dots(m: Mem, items: seq<Item>)
    requires Walkable(m, items)
    ensures 0 <= items[0].size && Head(m, items[0].size, items[1])
    ensures var o := items[0].size + items[1].size; if |items| > 2 then o < |m| && Head(m, o, items[2]) else o == |m|
  {
    var at :| Places(m, items, at);
    assert StandsAt(m, items, at, 0) && StandsAt(m, items, at, 1) && StandsAt(m, items, at, 2);
  }

  class FileTree {
    const fs: FileSystem
    var inodes: set<int>      // the inodes marked as allocated
    ghost var dirs: Dirs      // the entries of every directory, as they are on the disk

    ghost predicate Stored()
      reads this, fs.drive
    {
      fs.Valid() && fs.g.BlockSize() <= 0x1_0000 && AllOnDisk(fs.g, fs.drive.disk, dirs)
    }

    constructor (fs: FileSystem, inodes: set<int>, ghost dirs: Dirs)
      requires fs.Valid() && fs.g.BlockSize() <= 0x1_0000 && AllOnDisk(fs.g, fs.drive.disk, dirs)
      ensures Stored() && this.fs == fs && this.inodes == inodes && this.dirs == dirs
    {
      this.fs, this.inodes, this.dirs := fs, inodes, dirs;
    }

    /** `std_buf` holds the block of directory d. */
    ghost predicate Loaded(d: int)
      reads this, fs.stdBuf
    {
      d in dirs && Walkable(fs.stdBuf[..], dirs[d])
    }

    /** `read_inode_data` of a whole directory. */
    method Load(d: nat)
      requires Stored() && d in dirs
      modifies fs.drive`pos, fs.drive`left, fs.stdBuf, fs.stdInode
      ensures Stored() && Loaded(d)
    {
      assert OnDisk(fs.g, fs.drive.disk, dirs, d);
      LoadDir(fs, d);
      ghost var at := ChainPlaces(fs.stdBuf[..], dirs[d]);
    }

    /** `remove_file` */
    method RemoveFile(dir: nat, x: nat) returns (res: int, ghost k: int)
      requires Stored() && (dir != 0 ==> dir in dirs)
      modifies this`dirs, fs.drive, fs.stdBuf, fs.stdInode
      ensures Stored() && res == if dir == 0 then 4 else if x == 0 then 5 else if k == |old(dirs)[dir]| then 1 else 0
      ensures dir != 0 && x != 0 ==> FirstWith(old(dirs)[dir], x, k)
      ensures dirs == if res == 0 then old(dirs)[dir := Dropped(old(dirs)[dir], k)] else old(dirs)
    {
      ghost var disk := fs.drive.disk;
      if dir != 0 { assert OnDisk(fs.g, disk, dirs, dir) && Separate(fs.g, disk, dir, dir); }
      ghost var items := if dir != 0 then dirs[dir] else [];
      res, k := Directory.RemoveFile(fs, dir, x, items);
      if res == 0 {
        RemovalKeeps(fs.g, disk, fs.drive.disk, dirs, dir, items[k].IsDir(), Dropped(items, k));
        dirs := dirs[dir := Dropped(items, k)];
      }
    }

    /** `delete_file` */
    method DeleteFile(dir: nat, x: nat, ghost p: Plan) returns (res: int, ghost k: int)
      requires Stored() && Tree(dirs, inodes, p) && dir in dirs && x != 0
      requires Listed(dirs[dir], x) && x in dirs ==> |dirs[x]| == 2
      modifies this, fs.drive, fs.stdBuf, fs.stdInode
      ensures Stored() && Tree(dirs, inodes, p)
      ensures FirstWith(old(dirs)[dir], x, k) && (k < |old(dirs)[dir]| <==> Listed(old(dirs)[dir], x))
      ensures if k < |old(dirs)[dir]|
              then res == 0 && dirs == Without(old(dirs), dir, k, x) && inodes == old(inodes) - {x} && x in old(inodes) && x in p.up && p.up[x] == dir && x != dir
              else res == 1 && dirs == old(dirs) && inodes == old(inodes)
    {
      assert DirOk(dirs, p, dir) && dir != 0;
      res, k := RemoveFile(dir, x);
      if res != 0 {
        return;
      }
      DeleteKeepsTree(old(dirs), inodes, p, dir, k, x);
      Forget(fs.g, fs.drive.disk, dirs, x);
      dirs := dirs - {x};
      inodes := inodes - {x};
    }

    /** What is gone so far lay below r, and nothing else changed. */
    ghost predicate Partly(dirs0: Dirs, inodes0: set<int>, p: Plan, r: int)
      reads this, fs.drive
    {
      && Stored() && Tree(dirs, inodes, p) && r in dirs && inodes <= inodes0
      && (forall x :: x in inodes0 && x !in inodes ==> x in p.up && x != r && Under(p, x, r))
      && (forall d {:trigger SameOutside(dirs0, dirs, p, r, d)} :: SameOutside(dirs0, dirs, p, r, d))
    }

    /** Deleting one more file below r. */
    method DeleteBelow(dir: nat, x: nat, ghost p: Plan, ghost r: int, ghost dirs0: Dirs, ghost inodes0: set<int>) returns (res: int)
      requires Partly(dirs0, inodes0, p, r) && dir in dirs && Listed(dirs[dir], x) && (x in dirs ==> |dirs[x]| == 2)
      requires dir in p.up && Under(p, dir, r) && x != 0 && x != r
      modifies this, fs.drive, fs.stdBuf, fs.stdInode
      ensures res == 0 && Partly(dirs0, inodes0, p, r) && |inodes| < |old(inodes)| && dir in dirs
      ensures FirstOut(old(dirs)[dir], dirs[dir], x)
    {
      ghost var k;
      res, k := DeleteFile(dir, x, p);
      assert UpOk(p, x) && Under(p, x, r);
      forall d ensures SameOutside(dirs0, dirs, p, r, d) { assert SameOutside(dirs0, old(dirs), p, r, d); }
      Fewer(old(inodes), x);
    }

    /** One turn of the inner loop: the pointer to the next entry, taken before the deletion, still points to it after. */
    method DeleteThird(current: nat, entry: nat, ghost p: Plan, ghost r: int, ghost dirs0: Dirs, ghost inodes0: set<int>) returns (res: int, next: nat)
      requires Partly(dirs0, inodes0, p, r) && current in dirs && current in p.up && Under(p, current, r) && |dirs[current]| > 2
      requires Loaded(current) && AfterDots(dirs[current], entry) && !dirs[current][2].IsDir()
      modifies this, fs.drive, fs.stdBuf, fs.stdInode
      ensures res == 0 && Partly(dirs0, inodes0, p, r) && Loaded(current) && AfterDots(dirs[current], next) && |inodes| < |old(inodes)|
    {
      ghost var items := dirs[current];
      assert DirOk(dirs, p, current);
      var x;
      x, next := ReadThird(current, entry);
      assert ChildOk(dirs, p, current, items[2]);
      res := DeleteBelow(current, x, p, r, dirs0, inodes0);
      assert FirstWith(items, x, 2) && dirs[current] == Dropped(items, 2);
      Load(current);
    }

    /** The inode of the entry after "." and "..", and where the next one is. */
    method ReadThird(current: nat, entry: nat) returns (x: Word, next: nat)
      requires fs.Valid() && Loaded(current) && AfterDots(dirs[current], entry) && |dirs[current]| > 2
      ensures x == dirs[current][2].inode && next == entry + dirs[current][2].size
    {
      Dots(fs.stdBuf[..], dirs[current]);
      x := ReadInode(fs.stdBuf, entry);
      var size := ReadSize(fs.stdBuf, entry);
      next := entry + size;
    }

    /** Whether the entry after "." and ".." is a directory. */
    method ThirdIsDir(current: nat, entry: nat) returns (isDir: bool)
      requires fs.Valid() && Loaded(current) && AfterDots(dirs[current], entry) && |dirs[current]| > 2
      ensures isDir == dirs[current][2].IsDir()
    {
      Dots(fs.stdBuf[..], dirs[current]);
      isDir := fs.stdBuf[entry + 7] / FILE_DIR % 2 == 1;
    }

    /** The inner loop of `rm_dir`: the files before the first subdirectory; `entry` is where that is, or the end. */
    method ClearFiles(current: nat, ghost p: Plan, ghost r: int, ghost dirs0: Dirs, ghost inodes0: set<int>) returns (res: int, entry: nat)
      requires Partly(dirs0, inodes0, p, r) && current in dirs && current in p.up && Under(p, current, r) && |dirs[current]| > 2 && Loaded(current)
      modifies this, fs.drive, fs.stdBuf, fs.stdInode
      ensures res == 0 && Partly(dirs0, inodes0, p, r) && Loaded(current) && AfterDots(dirs[current], entry)
      ensures if entry == fs.stdBuf.Length then |inodes| < |old(inodes)|
              else |dirs[current]| > 2 && dirs[current][2].IsDir() && |inodes| <= |old(inodes)|
    {
      assert DirOk(dirs, p, current);
      Dots(fs.stdBuf[..], dirs[current]);
      var size := ReadSize(fs.stdBuf, DOT);
      entry := DOT + size;
      res := 0;
      var isDir := ThirdIsDir(current, entry);
      while entry < fs.stdBuf.Length && !isDir
        invariant Partly(dirs0, inodes0, p, r) && Loaded(current) && AfterDots(dirs[current], entry) && res == 0
        invariant |dirs[current]| > 2 ==> isDir == dirs[current][2].IsDir()
        invariant |inodes| <= |old(inodes)| && (|dirs[current]| == 2 ==> |inodes| < |old(inodes)|)
        decreases |inodes|
      {
        Dots(fs.stdBuf[..], dirs[current]);
        res, entry := DeleteThird(current, entry, p, r, dirs0, inodes0);
        if res != 0 {
          return;
        }
        Dots(fs.stdBuf[..], dirs[current]);
        if entry < fs.stdBuf.Length {
          isDir := ThirdIsDir(current, entry);
        }
      }
      Dots(fs.stdBuf[..], dirs[current]);
    }

    /**
     * `rm_dir`, on the bytes of the disk: it ends, and deletes exactly the directory and what is below it; the parent's
     * block loses the entry, the entries of every other directory stay as they are. (The root has no entry anywhere: it
     * is emptied, and 1 is returned.)
     */
    method RmDir(inode: nat, ghost p: Plan) returns (res: int)
      requires Stored() && Tree(dirs, inodes, p) && (inode == 0 || inode in dirs)
      modifies this, fs.drive, fs.stdBuf, fs.stdInode
      ensures Stored() && Tree(dirs, inodes, p) && res == if inode == 0 then 5 else if inode == ROOT then 1 else 0
      ensures inode == 0 ==> dirs == old(dirs) && inodes == old(inodes)
      ensures inode != 0 ==> forall x :: x in inodes <==> x in old(inodes) && !(Doomed(p, x, inode) && (x != inode || inode != ROOT))
      ensures inode != 0 ==> inode in p.up
      ensures inode != 0 && inode != ROOT ==> forall d :: d in old(dirs) && !Doomed(p, d, inode) && d != p.up[inode] ==> d in dirs && dirs[d] == old(dirs)[d]
      ensures inode != 0 && inode != ROOT ==> p.up[inode] in old(dirs) && p.up[inode] in dirs && FirstOut(old(dirs)[p.up[inode]], dirs[p.up[inode]], inode)
    {
      if inode == 0 {
        return 5;
      }
      ghost var dirs0, inodes0 := dirs, inodes;
      ghost var h := DepthBound(p.depth);
      var current: nat := inode;
      assert DirOk(dirs, p, inode);
      Load(inode);
      while true
        invariant Partly(dirs0, inodes0, p, inode) && current in dirs && current in p.up && Under(p, current, inode)
        decreases |inodes|, h - p.depth[current]
      {
        Load(current);
        var empty, up := IsEmpty(current, p);
        if empty {
          if current == inode {
            res := DeleteTop(up, inode, p, dirs0, inodes0);
            return;
          } else {
            var tmp := current;
            current := up;
            UpStays(dirs, inodes, p, tmp, inode);
            res := DeleteBelow(current, tmp, p, inode, dirs0, inodes0);
            if res != 0 {
              return;
            }
          }
        } else {
          var entry;
          res, entry := ClearFiles(current, p, inode, dirs0, inodes0);
          if res != 0 {
            return;
          }
          if entry != fs.stdBuf.Length {
            current := Descend(current, entry, p, inode);
          }
        }
      }
    }

    /** The test for an empty directory: its second entry reaches to the end; and where its parent is. */
    method IsEmpty(current: nat, ghost p: Plan) returns (empty: bool, up: nat)
      requires fs.Valid() && Tree(dirs, inodes, p) && Loaded(current)
      ensures current in p.up && up == p.up[current] && (empty <==> |dirs[current]| == 2)
    {
      assert DirOk(dirs, p, current);
      Dots(fs.stdBuf[..], dirs[current]);
      var size := ReadSize(fs.stdBuf, DOT);
      empty := size == fs.stdBuf.Length - DOT;
      up := ReadInode(fs.stdBuf, DOT);
    }

    /** Into the first subdirectory. */
    method Descend(current: nat, entry: nat, ghost p: Plan, ghost r: int) returns (next: nat)
      requires fs.Valid() && Tree(dirs, inodes, p) && Loaded(current) && current in p.up && Under(p, current, r)
      requires |dirs[current]| > 2 && AfterDots(dirs[current], entry) && dirs[current][2].IsDir()
      ensures next in dirs && next in p.up && Under(p, next, r) && p.depth[next] == p.depth[current] + 1
    {
      assert DirOk(dirs, p, current);
      Dots(fs.stdBuf[..], dirs[current]);
      next := ReadInode(fs.stdBuf, entry);
      assert ChildOk(dirs, p, current, dirs[current][2]) && UpOk(p, next);
    }

    /** The directory itself, once it is empty. */
    method DeleteTop(dir: nat, inode: nat, ghost p: Plan, ghost dirs0: Dirs, ghost inodes0: set<int>) returns (res: int)
      requires Partly(dirs0, inodes0, p, inode) && |dirs[inode]| == 2 && inode in p.up && dir == p.up[inode]
      modifies this, fs.drive, fs.stdBuf, fs.stdInode
      ensures Stored() && Tree(dirs, inodes, p) && res == if inode == ROOT then 1 else 0
      ensures forall x :: x in inodes <==> x in inodes0 && !(Doomed(p, x, inode) && (x != inode || inode != ROOT))
      ensures inode != ROOT ==> forall d :: d in dirs0 && !Doomed(p, d, inode) && d != dir ==> d in dirs && dirs[d] == dirs0[d]
      ensures inode != ROOT ==> dir in dirs0 && dir in dirs && FirstOut(dirs0[dir], dirs[dir], inode)
    {
      assert ChildrenIn(dirs, inodes, inode) && PlaceOk(dirs, p, inode) && UpOk(p, inode);
      forall x | x in inodes && x != inode ensures !Doomed(p, x, inode) {
        if Doomed(p, x, inode) { NotEmpty(dirs, inodes, p, x, inode); }
      }
      if inode == ROOT { RootUnlisted(dirs, inodes, p); } else { Deeper(p, dir, inode); }
      assert SameOutside(dirs0, dirs, p, inode, dir);
      forall d | d in dirs0 && !Doomed(p, d, inode) ensures d in dirs && dirs[d] == dirs0[d] && d != inode {
        assert SameOutside(dirs0, dirs, p, inode, d);
      }
      ghost var k;
      res, k := DeleteFile(dir, inode, p);
    }
  }

  /** The root is its own parent, but not among its own files. */
  lemma RootUnlisted(dirs: Dirs, inodes: set<int>, p: Plan)
    requires Tree(dirs, inodes, p)
    ensures !Listed(dirs[ROOT], ROOT)
  {
    assert DirOk(dirs, p, ROOT);
    forall i | 2 <= i < |dirs[ROOT]| ensures dirs[ROOT][i].inode != ROOT { assert ChildOk(dirs, p, ROOT, dirs[ROOT][i]); }
  }

  lemma {:induction false} Deeper(p: Plan, x: int, r: int)
    requires Planned(p) && x in p.up && r in p.up && p.depth[x] < p.depth[r]
    ensures !Under(p, x, r)
    decreases p.depth[x]
  {
    if x != ROOT {
      assert UpOk(p, x);
      Deeper(p, p.up[x], r);
    }
  }

  /** A directory below r other than r has its parent below r, too, and is listed there. */
  lemma UpStays(dirs: Dirs, inodes: set<int>, p: Plan, x: int, r: int)
    requires Tree(dirs, inodes, p) && x in dirs && x in p.up && Under(p, x, r) && x != r
    ensures x != 0 && x != ROOT && p.up[x] in dirs && p.up[x] in p.up && Listed(dirs[p.up[x]], x) && Under(p, p.up[x], r)
  {
    assert ChildrenIn(dirs, inodes, x) && PlaceOk(dirs, p, x) && UpOk(p, x);
  }

  /** r and all that was below it. */
  ghost predicate Doomed(p: Plan, x: int, r: int)
    requires Planned(p)
  {
    x in p.up && Under(p, x, r)
  }

  /** The place after "." and "..". */
  ghost predicate AfterDots(items: seq<Item>, entry: int)
  {
    |items| >= 2 && entry == items[0].size + items[1].size
  }

  lemma Fewer(s: set<int>, x: int)
    requires x in s
    ensures |s - {x}| < |s|
  {
  }

  /** The listing without its first entry for x. */
  ghost predicate FirstOut(items: seq<Item>, rest: seq<Item>, x: int)
  {
    exists k :: FirstWith(items, x, k) && k < |items| && rest == Dropped(items, k)
  }

  /** Directory d, if it is not below r, is as it was. */
  ghost predicate SameOutside(dirs0: Dirs, dirs: Dirs, p: Plan, r: int, d: int)
    requires Planned(p)
  {
    && (d in dirs ==> d in dirs0)
    && (d in dirs0 && !Doomed(p, d, r) ==> d in dirs && dirs[d] == dirs0[d])
  }
}
