/**
 The devfs operations of kernel/fs/dev.c over the inode list: lookup, insertion,
 removal, create, link, unlink, open and close, each keeping the list sorted, the
 link counts equal to the names and the refcounts equal to the open handles.
 A file is given by its inode number; the results of driver callbacks and of
 allocations are parameters.
 */
module DevFs {
  import opened SeqOps
  import opened DevInodes
  import opened Machine

  const ENOENT := 2
  const EINVAL := 22
  const ENOTDIR := 20

  class FileSystem {
    var files: seq<File>
    ghost var handles: multiset<nat>

    ghost predicate Valid()
      reads this
    {
      Consistent(files, handles)
    }

    /** return_sb: just the root. */
    constructor ()
      ensures Valid() && files == [File(0, Directory, 1, 0, [])] && handles == multiset{}
    {
      files := [File(0, Directory, 1, 0, [])];
      handles := multiset{};
    }

    /** get_inode: the early exit of the sorted walk agrees with a full search. */
    method GetInode(ino: nat) returns (i: int)
      requires Sorted(files)
      ensures i == -1 <==> !Listed(files, ino)
      ensures i != -1 ==> IsAt(files, i, ino)
    {
      i := 0;
      while i < |files|
        invariant 0 <= i <= |files|
        invariant forall k :: 0 <= k < i ==> files[k].inode < ino
      {
        if files[i].inode == ino {
          assert IsAt(files, i, ino);
          return;
        }
        if files[i].inode > ino { return -1; }
        i := i + 1;
      }
      i := -1;
    }

    /** file_insert: behind the last smaller inode. */
    method FileInsert(file: File) returns (ghost k: int)
      requires Sorted(files) && file.inode > 0 && !Listed(files, file.inode)
      modifies this`files
      ensures 0 < k <= |old(files)| && files == InsertAt(old(files), k, file)
      ensures forall i :: 0 <= i < k ==> old(files)[i].inode < file.inode
      ensures forall i :: k <= i < |old(files)| ==> file.inode < old(files)[i].inode
    {
      var i := 0;
      while i < |files|
        invariant 0 <= i <= |files|
        invariant forall j :: 0 <= j < i ==> files[j].inode < file.inode
      {
        if files[i].inode > file.inode { break; }
        assert IsAt(files, i, files[i].inode);
        i := i + 1;
      }
      k := i;
      files := InsertAt(files, i, file);
    }

    /** file_remove: nothing happens to a missing inode below some listed one. */
    method FileRemove(ino: nat) returns (ghost k: int)
      requires Sorted(files) && ino > 0
      requires Listed(files, ino) || exists i :: 0 <= i < |files| && files[i].inode > ino
      modifies this`files
      ensures !Listed(old(files), ino) ==> files == old(files)
      ensures Listed(old(files), ino) ==>
                0 < k < |old(files)| && IsAt(old(files), k, ino) && files == RemoveAt(old(files), k)
    {
      var i := 0;
      while i < |files|
        invariant 0 <= i <= |files| && files == old(files)
        invariant forall j :: 0 <= j < i ==> files[j].inode < ino
      {
        if files[i].inode == ino { break; }
        if files[i].inode > ino { return i; }
        i := i + 1;
      }
      k := i;
      assert IsAt(files, i, ino);
      files := RemoveAt(files, i);
    }

    /** get_empty_inode: the least number not in use. */
    method GetEmptyInode() returns (inode: nat)
      requires Sorted(files)
      ensures !Listed(files, inode)
      ensures forall n :: 0 <= n < inode ==> Listed(files, n)
      ensures inode > 0
    {
      inode := 0;
      var i := 0;
      while i < |files|
        invariant 0 <= i <= |files| && inode == i
        invariant forall k :: 0 <= k < i ==> files[k].inode == k
      {
        assert i > 0 ==> files[i-1].inode < files[i].inode;
        if inode < files[i].inode { break; }
        inode := files[i].inode + 1;
        i := i + 1;
      }
      forall n | 0 <= n < inode ensures Listed(files, n) {
        assert IsAt(files, n, n);
      }
      assert forall k :: 0 <= k < |files| ==> files[k].inode != inode;
    }

    /** Count one more link for file c and add an entry for it to directory p; a node
        for the entry that cannot be allocated goes unnoticed. */
    method AddEntry(p: int, c: int, name: string, nodeOk: bool)
      requires Valid() && 0 <= p < |files| && 0 <= c < |files| && files[p].kind == Directory
      modifies this`files
      ensures Valid() <==> nodeOk
      ensures files == if nodeOk then AddName(old(files), p, c, name)
                       else old(files)[c := old(files)[c].(nlink := old(files)[c].nlink + 1)]
    {
      hide Consistent;
      AddNameKeeps(files, handles, p, c, name);
      LinkWithoutName(files, handles, c);
      var ino := files[c].inode;
      files := files[c := files[c].(nlink := files[c].nlink + 1)];
      if nodeOk {
        files := files[p := files[p].(entries := InsertAt(files[p].entries, |files[p].entries|, Dirent(ino, name)))];
      }
    }

    /** create: a fresh inode, the least unused number, with one name.  `kindOk` is
        false when the mode's type is none of the three, `ok` when the inode or the
        entry cannot be allocated, `nodeOk` when the entry's list node cannot. */
    method Create(parent: nat, name: string, kind: Kind, kindOk: bool, ok: bool, nodeOk: bool)
      returns (ret: int, inode: nat, ghost k: int, ghost p: int)
      requires Valid() && Listed(files, parent)
      requires forall i :: IsAt(files, i, parent) ==> files[i].kind == Directory
      modifies this`files
      ensures ret == if !kindOk then -EINVAL else if !ok then -ENOMEM else 0
      ensures ret != 0 ==> files == old(files)
      ensures ret == 0 ==> !Listed(old(files), inode) && forall n :: 0 <= n < inode ==> Listed(old(files), n)
      ensures ret == 0 ==> Names(old(files), inode) == 0 && inode !in handles
      ensures ret == 0 && nodeOk ==> Created(old(files), files, k, p, File(inode, kind, 0, 0, []), parent, name)
      ensures ret == 0 && nodeOk ==> NodeMade(old(files), files, k, parent, inode, kind, name)
      ensures ret == 0 && !nodeOk ==>
                0 < k <= |old(files)| && files == InsertAt(old(files), k, File(inode, kind, 1, 0, []))
      ensures Valid() <==> ret != 0 || nodeOk
    {
      hide LinksOk, EntriesOk, HandlesOk, Names, AddName, NodeMade;
      k, p := 0, 0;
      if !kindOk { return -EINVAL, 0, k, p; }
      if !ok { return -ENOMEM, 0, k, p; }
      ghost var files0 := files;
      inode := GetEmptyInode();
      NamedOrOpenIsListed(files, handles, inode);
      k := FileInsert(File(inode, kind, 0, 0, []));
      InsertKeeps(files0, handles, k, File(inode, kind, 0, 0, []));
      InsertListed(files0, k, File(inode, kind, 0, 0, []));
      var dir := GetInode(parent);
      var c := GetInode(inode);
      ghost var at :| IsAt(files0, at, parent);
      Unique(files, dir, if at < k then at else at + 1, parent);
      Unique(files, c, k, inode);
      p := dir;
      InsertAddMeans(files0, k, p, parent, File(inode, kind, 0, 0, []), name);
      AddEntry(dir, c, name, nodeOk);
      InsertUpdate(files0, k, File(inode, kind, 0, 0, []), File(inode, kind, 1, 0, []));
      ret := 0;
    }

    /** link: one more name for a live inode. */
    method Link(parent: nat, child: nat, name: string, ok: bool, nodeOk: bool, ghost p: int, ghost c: int)
      returns (ret: int)
      requires Valid() && IsAt(files, p, parent) && IsAt(files, c, child) && files[p].kind == Directory
      modifies this`files
      ensures ret == if ok then 0 else -ENOMEM
      ensures ret != 0 ==> files == old(files)
      ensures ret == 0 ==> files == if nodeOk then AddName(old(files), p, c, name)
                                    else old(files)[c := old(files)[c].(nlink := old(files)[c].nlink + 1)]
      ensures ret == 0 && nodeOk ==> NameGiven(old(files), files, p, c, name)
      ensures Valid() <==> ret != 0 || nodeOk
    {
      AddNameMeans(files, p, c, name);
      var cc := GetInode(child);
      var pp := GetInode(parent);
      Unique(files, pp, p, parent);
      Unique(files, cc, c, child);
      if !ok { return -ENOMEM; }
      AddEntry(pp, cc, name, nodeOk);
      ret := 0;
    }

    /** The first entry of directory p with the given name, or the number of
        entries. */
    method FindEntry(p: int, name: string) returns (j: nat)
      requires 0 <= p < |files|
      ensures j <= |files[p].entries| && (j < |files[p].entries| ==> files[p].entries[j].name == name)
      ensures forall k :: 0 <= k < j ==> files[p].entries[k].name != name
    {
      j := 0;
      while j < |files[p].entries|
        invariant 0 <= j <= |files[p].entries|
        invariant forall k :: 0 <= k < j ==> files[p].entries[k].name != name
      {
        if files[p].entries[j].name == name { return; }
        j := j + 1;
      }
    }

    /** unlink: drop the first entry of that name, and the inode with its last name
        unless it is open.  Consistency is lost exactly when the inode that goes is a
        directory that has entries. */
    method Unlink(parent: nat, name: string) returns (ret: int, ghost p: int, ghost j: int, ghost c: int)
      requires Valid()
      modifies this`files
      ensures ret in {0, -ENOENT, -ENOTDIR}
      ensures ret == -ENOTDIR <==> !Listed(old(files), parent)
      ensures ret != 0 ==> Valid() && files == old(files)
      ensures ret == -ENOENT ==>
                IsAt(files, p, parent)
                && forall k :: 0 <= k < |files[p].entries| ==> files[p].entries[k].name != name
      ensures ret == 0 ==> IsAt(old(files), p, parent) && FirstNamed(old(files)[p].entries, j, name)
      ensures ret == 0 ==> IsAt(old(files), c, old(files)[p].entries[j].ino) && old(files)[c].nlink > 0
      ensures ret == 0 ==>
                var dropped := DropName(old(files), p, j, c);
                var gone := dropped[c].nlink == 0 && dropped[c].refcount == 0;
                && files == (if gone then RemoveAt(dropped, c) else dropped)
                && (Valid() <==> !gone || dropped[c].entries == [])
      ensures ret == 0 ==>
                NameTaken(old(files), files, p, j, c, old(files)[c].nlink == 1 && old(files)[c].refcount == 0)
    {
      hide LinksOk, EntriesOk, HandlesOk, Listed, NameTaken;
      j, c := 0, 0;
      var pp := GetInode(parent);
      p := pp;
      if pp == -1 { return -ENOTDIR, p, j, c; }
      var jj := FindEntry(pp, name);
      if jj == |files[pp].entries| { return -ENOENT, p, j, c; }
      var child := files[pp].entries[jj].ino;
      var cc := GetInode(child);
      j, c := jj, cc;
      EntryListed(files, pp, jj);
      DropNameKeeps(files, handles, pp, jj, cc);
      DropNameMeans(files, pp, jj, cc);
      files := files[pp := files[pp].(entries := RemoveAt(files[pp].entries, jj))];
      files := files[cc := files[cc].(nlink := files[cc].nlink - 1)];
      if files[cc].nlink == 0 && files[cc].refcount == 0 {
        RootLinked(files, handles, cc);
        RemoveConsistentIff(files, handles, cc);
        ListedAt(files, cc);
        ghost var k := FileRemove(child);
        Unique(DropName(old(files), pp, jj, cc), k, cc, child);
      }
      ret := 0;
    }

    /** open: only a linked inode can be opened; a driver may refuse. */
    method Open(ino: nat, driverRet: int) returns (ret: int, ghost c: int)
      requires Valid()
      modifies this
      ensures Valid()
      ensures !Listed(old(files), ino) ==> ret == -ENOENT
      ensures Listed(old(files), ino) ==> IsAt(old(files), c, ino)
      ensures Listed(old(files), ino) ==>
                ret == if old(files)[c].nlink == 0 then -ENOENT
                       else if old(files)[c].kind == Directory then 0 else driverRet
      ensures ret == 0 ==> files == old(files)[c := old(files)[c].(refcount := old(files)[c].refcount + 1)]
      ensures ret != 0 ==> files == old(files)
      ensures handles == if ret == 0 then old(handles) + multiset{ino} else old(handles)
    {
      hide LinksOk, EntriesOk, HandlesOk, Listed;
      ret := 0;
      var i := GetInode(ino);
      c := i;
      if i == -1 || files[i].nlink == 0 { return -ENOENT, c; }
      if files[i].kind != Directory { ret := driverRet; }
      if ret == 0 {
        RefKeeps(files, handles, handles + multiset{ino}, i, 1);
        files := files[i := files[i].(refcount := files[i].refcount + 1)];
        handles := handles + multiset{ino};
      }
    }

    /** close: the last close of an unlinked inode removes it unless the driver refuses.
        Consistency is lost exactly when that inode is a directory that has entries, or
        when there was no open handle to close. */
    method Close(ino: nat, driverRet: int, ghost c: int) returns (ret: int)
      requires Valid() && (Listed(files, ino) ==> IsAt(files, c, ino))
      modifies this
      ensures !Listed(old(files), ino) ==> ret == 0 && Valid() && files == old(files) && handles == old(handles)
      ensures Listed(old(files), ino) ==>
                var closed := old(files)[c := old(files)[c].(refcount := old(files)[c].refcount - 1)];
                && handles == old(handles) - multiset{ino}
                && ret == (if closed[c].refcount == 0 && closed[c].kind != Directory then driverRet else 0)
                && var gone := closed[c].refcount == 0 && ret == 0 && closed[c].nlink == 0;
                && files == (if gone then RemoveAt(closed, c) else closed)
                && (Valid() <==> ino in old(handles) && (!gone || closed[c].entries == []))
    {
      hide LinksOk, EntriesOk, HandlesOk, Listed;
      ret := 0;
      var i := GetInode(ino);
      if i == -1 { return; }
      ListedAt(files, i);
      Unique(files, i, c, ino);
      OpenOnce(files, handles, c);
      if ino in handles {
        RefKeeps(files, handles, handles - multiset{ino}, i, -1);
      } else {
        RefWrong(files[i := files[i].(refcount := -1)], handles - multiset{ino}, i);
      }
      files := files[i := files[i].(refcount := files[i].refcount - 1)];
      handles := handles - multiset{ino};
      if files[i].refcount == 0 {
        if files[i].kind != Directory { ret := driverRet; }
        if ret == 0 && files[i].nlink == 0 {
          RootLinked(files, handles, i);
          RemoveConsistentIff(files, handles, i);
          ListedAt(files, i);
          ghost var files1 := files;
          ghost var k := FileRemove(ino);
          Unique(files1, k, i, ino);
        }
      }
    }
  }

  /** mkdir d, create d/tty, unlink d: the device keeps a link without a name. */
  method UnlinkLosesNames() returns (fs: FileSystem)
    ensures fresh(fs) && !fs.Valid()
  {
    hide Consistent;
    fs := new FileSystem();
    MakeDirectory(fs);
    MakeDevice(fs, ROOT_D, File(1, Directory, 1, 0, []));
    ghost var files := fs.files;
    var ret;
    ghost var p, j, c;
    ret, p, j, c := fs.Unlink(0, "d");
    ListedAt(files, 0);
    assert p == 0 && files[0].entries[0].name == "d";
    assert ret == 0 && j == 0 && c == 1;
  }

  const ROOT := File(0, Directory, 1, 0, [])
  const ROOT_D := File(0, Directory, 1, 0, [Dirent(1, "d")])

  /** mkdir d in the empty file system. */
  method MakeDirectory(fs: FileSystem)
    requires fs.Valid() && fs.files == [ROOT] && fs.handles == multiset{}
    modifies fs
    ensures fs.Valid() && fs.files == [ROOT_D, File(1, Directory, 1, 0, [])] && fs.handles == multiset{}
  {
    hide Consistent;
    var ret, inode;
    ghost var k, p;
    ListedAt(fs.files, 0);
    ret, inode, k, p := fs.Create(0, "d", Directory, true, true, true);
    LeastUnused([ROOT], inode);
    assert k == 1 && p == 0;
    assert InsertAt([ROOT], 1, File(1, Directory, 0, 0, [])) == [ROOT, File(1, Directory, 0, 0, [])];
    NameAdded([ROOT, File(1, Directory, 0, 0, [])], 0, 1, "d");
  }

  lemma NameAdded(files: seq<File>, p: int, c: int, name: string)
    requires 0 <= p < |files| && 0 <= c < |files| && p != c && files[p].entries == []
    ensures AddName(files, p, c, name)
         == files[p := files[p].(entries := [Dirent(files[c].inode, name)])]
                 [c := files[c].(nlink := files[c].nlink + 1)]
  {
    assert InsertAt([], 0, Dirent(files[c].inode, name)) == [Dirent(files[c].inode, name)];
  }

  /** create tty in the directory d after that, linked or not. */
  method MakeDevice(fs: FileSystem, ghost root: File, ghost d: File)
    requires fs.Valid() && fs.files == [root, d]
    requires root.inode == 0 && d.inode == 1 && d.kind == Directory && d.entries == []
    modifies fs
    ensures fs.Valid() && fs.handles == old(fs.handles)
    ensures fs.files == [root, d.(entries := [Dirent(2, "tty")]), File(2, CharDevice, 1, 0, [])]
  {
    hide LinksOk, EntriesOk, HandlesOk;
    var ret, inode;
    ghost var k, p;
    ghost var was, tty := fs.files, File(2, CharDevice, 0, 0, []);
    ListedAt(fs.files, 1);
    ret, inode, k, p := fs.Create(1, "tty", CharDevice, true, true, true);
    LeastUnused(was, inode);
    assert fs.files[1].inode < fs.files[2].inode;
    assert InsertAt(was, 2, tty) == was + [tty];
    assert p == 1;
    NameAdded(was + [tty], 1, 2, "tty");
  }

  /** mkdir d, open d, unlink d, create d/tty, close d: the same, by way of close. */
  method CloseLosesNames() returns (fs: FileSystem)
    ensures fresh(fs) && !fs.Valid()
  {
    hide Consistent;
    fs := new FileSystem();
    MakeDirectory(fs);
    ListedAt(fs.files, 1);
    var ret;
    ghost var p, j, c;
    ret, c := fs.Open(1, 0);
    ghost var files := fs.files;
    assert c == 1 && files == [ROOT_D, File(1, Directory, 1, 1, [])];
    ListedAt(files, 0);
    ret, p, j, c := fs.Unlink(0, "d");
    assert p == 0 && files[0].entries[0].name == "d";
    assert ret == 0 && j == 0 && c == 1;
    assert RemoveAt(ROOT_D.entries, 0) == [];
    assert fs.files == [ROOT, File(1, Directory, 0, 1, [])];
    MakeDevice(fs, ROOT, File(1, Directory, 0, 1, []));
    ListedAt(fs.files, 1);
    ret := fs.Close(1, 0, 1);
  }

  /** mkdir d when no list node is left for the name: success is reported, and the
      directory has a link but no name. */
  method CreateLosesEntry() returns (fs: FileSystem, ret: int)
    ensures fresh(fs) && ret == 0 && !fs.Valid()
  {
    hide Consistent;
    fs := new FileSystem();
    ListedAt(fs.files, 0);
    var inode;
    ghost var k, p;
    ret, inode, k, p := fs.Create(0, "d", Directory, true, true, false);
  }

  lemma LeastUnused(files: seq<File>, inode: nat)
    requires forall i :: 0 <= i < |files| ==> files[i].inode == i
    requires !Listed(files, inode) && forall n :: 0 <= n < inode ==> Listed(files, n)
    ensures inode == |files|
  {
    if inode < |files| { ListedAt(files, inode); }
    assert inode > |files| ==> Listed(files, |files|);
  }

  /** What create does: the new inode in place k, then a name for it in the parent,
      now at p. */
  ghost predicate Created(files: seq<File>, files': seq<File>, k: int, p: int, f: File, parent: nat, name: string) {
    && 0 < k <= |files| && IsAt(InsertAt(files, k, f), p, parent)
    && files' == AddName(InsertAt(files, k, f), p, k, name)
  }

  predicate FirstNamed(entries: seq<Dirent>, j: int, name: string) {
    && 0 <= j < |entries| && entries[j].name == name
    && forall k :: 0 <= k < j ==> entries[k].name != name
  }

  lemma Unique(files: seq<File>, i: int, k: int, ino: nat)
    requires Sorted(files) && IsAt(files, i, ino) && IsAt(files, k, ino)
    ensures i == k
  {
  }

  lemma OpenOnce(files: seq<File>, handles: multiset<nat>, c: int)
    requires HandlesOk(files, handles) && 0 <= c < |files|
    ensures files[c].refcount == handles[files[c].inode]
  {
  }

  lemma RefWrong(files: seq<File>, handles: multiset<nat>, c: int)
    requires 0 <= c < |files| && files[c].refcount < 0
    ensures !Consistent(files, handles)
  {
  }

  lemma EntryListed(files: seq<File>, p: int, j: int)
    requires EntriesOk(files) && 0 <= p < |files| && 0 <= j < |files[p].entries|
    ensures Listed(files, files[p].entries[j].ino)
  {
    assert EntriesListed(files, files[p].entries);
  }

  /** The root always keeps its own link. */
  lemma RootLinked(files: seq<File>, handles: multiset<nat>, c: int)
    requires Consistent(files, handles) && 0 <= c < |files| && files[c].nlink == 0
    ensures c > 0 && files[c].inode > 0
  {
    assert LinkOk(files, files[0]);
    assert c > 0;
    assert files[0].inode < files[c].inode;
  }
}
