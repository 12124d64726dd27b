/**
 The inode list and the directory entries of devfs (kernel/fs/dev.c), on values:
 what it means for them to be consistent, and what each change does to the link
 counts.
 */
module DevInodes {
  import opened SeqOps

  datatype Kind = Directory | CharDevice | BlockDevice

  datatype Dirent = Dirent(ino: nat, name: string)

  /** A struct dev_file; `entries` is the list of a directory. */
  datatype File = File(inode: nat, kind: Kind, nlink: nat, refcount: int, entries: seq<Dirent>)

  /** The list is strictly sorted and starts with the root directory, inode 0. */
  predicate Sorted(files: seq<File>) {
    && files != [] && files[0].inode == 0 && files[0].kind == Directory
    && (forall i, j :: 0 <= i < j < |files| ==> files[i].inode < files[j].inode)
  }

  predicate IsAt(files: seq<File>, i: int, ino: nat) {
    0 <= i < |files| && files[i].inode == ino
  }

  ghost predicate Listed(files: seq<File>, ino: nat) {
    exists i :: IsAt(files, i, ino)
  }

  /** Entries of one directory that name `ino`. */
  function Count(entries: seq<Dirent>, ino: nat): nat {
    if entries == [] then 0
    else Count(entries[..|entries|-1], ino) + if entries[|entries|-1].ino == ino then 1 else 0
  }

  /** Entries of all directories that name `ino`. */
  function Names(files: seq<File>, ino: nat): nat {
    if files == [] then 0
    else Names(files[..|files|-1], ino) + Count(files[|files|-1].entries, ino)
  }

  predicate LinkOk(files: seq<File>, f: File) {
    f.nlink == Names(files, f.inode) + if f.inode == 0 then 1 else 0
  }

  /** nlink counts the names, with one more for the root. */
  predicate LinksOk(files: seq<File>) {
    forall i :: 0 <= i < |files| ==> LinkOk(files, files[i])
  }

  ghost predicate EntriesListed(files: seq<File>, entries: seq<Dirent>) {
    forall j :: 0 <= j < |entries| ==> Listed(files, entries[j].ino)
  }

  /** Every entry names a live inode; only directories have entries. */
  ghost predicate EntriesOk(files: seq<File>) {
    forall i :: 0 <= i < |files| ==>
      EntriesListed(files, files[i].entries)
      && (files[i].kind != Directory ==> files[i].entries == [])
  }

  /** refcount counts the open handles; handles are of live inodes. */
  ghost predicate HandlesOk(files: seq<File>, handles: multiset<nat>) {
    && (forall i :: 0 <= i < |files| ==> files[i].refcount == handles[files[i].inode])
    && (forall ino :: ino in handles ==> Listed(files, ino))
  }

  ghost predicate Consistent(files: seq<File>, handles: multiset<nat>) {
    Sorted(files) && LinksOk(files) && EntriesOk(files) && HandlesOk(files, handles)
  }

  /** An inode with a name or an open handle is listed, so a number that is not
      listed has neither. */
  lemma NamedOrOpenIsListed(files: seq<File>, handles: multiset<nat>, ino: nat)
    requires Consistent(files, handles) && !Listed(files, ino)
    ensures Names(files, ino) == 0 && ino !in handles
  {
    forall i | 0 <= i < |files| ensures Count(files[i].entries, ino) == 0 {
      NoneCounted(files[i].entries, ino);
    }
    NoNames(files, ino);
  }

  lemma {:induction false} NoneCounted(entries: seq<Dirent>, ino: nat)
    requires forall j :: 0 <= j < |entries| ==> entries[j].ino != ino
    ensures Count(entries, ino) == 0
    decreases |entries|
  {
    if entries != [] { NoneCounted(entries[..|entries|-1], ino); }
  }

  lemma {:induction false} SomeCounted(entries: seq<Dirent>, j: int)
    requires 0 <= j < |entries|
    ensures Count(entries, entries[j].ino) > 0
    decreases |entries|
  {
    if j < |entries| - 1 { SomeCounted(entries[..|entries|-1], j); }
  }

  lemma {:induction false} NoNames(files: seq<File>, ino: nat)
    requires forall i :: 0 <= i < |files| ==> Count(files[i].entries, ino) == 0
    ensures Names(files, ino) == 0
    decreases |files|
  {
    if files != [] { NoNames(files[..|files|-1], ino); }
  }

  lemma {:induction false} OneOfNames(files: seq<File>, i: int, ino: nat)
    requires 0 <= i < |files|
    ensures Count(files[i].entries, ino) <= Names(files, ino)
    decreases |files|
  {
    if i < |files| - 1 { OneOfNames(files[..|files|-1], i, ino); }
  }

  lemma {:induction false} CountInsert(entries: seq<Dirent>, j: int, e: Dirent, ino: nat)
    requires 0 <= j <= |entries|
    ensures Count(InsertAt(entries, j, e), ino) == Count(entries, ino) + if e.ino == ino then 1 else 0
    decreases |entries|
  {
    var s := InsertAt(entries, j, e);
    if j == |entries| {
      assert s[..|s|-1] == entries;
    } else {
      assert s[..|s|-1] == InsertAt(entries[..|entries|-1], j, e);
      CountInsert(entries[..|entries|-1], j, e, ino);
    }
  }

  lemma CountRemove(entries: seq<Dirent>, j: int, ino: nat)
    requires 0 <= j < |entries|
    ensures Count(RemoveAt(entries, j), ino) == Count(entries, ino) - if entries[j].ino == ino then 1 else 0
  {
    CountInsert(RemoveAt(entries, j), j, entries[j], ino);
    RemoveInsert(entries, j);
  }

  lemma {:induction false} NamesUpdate(files: seq<File>, i: int, f: File, ino: nat)
    requires 0 <= i < |files|
    ensures Names(files[i := f], ino) == Names(files, ino) - Count(files[i].entries, ino) + Count(f.entries, ino)
    decreases |files|
  {
    var s := files[i := f];
    if i == |files| - 1 {
      assert s[..|s|-1] == files[..|files|-1];
    } else {
      assert s[..|s|-1] == files[..|files|-1][i := f];
      NamesUpdate(files[..|files|-1], i, f, ino);
    }
  }

  lemma {:induction false} NamesInsert(files: seq<File>, i: int, f: File, ino: nat)
    requires 0 <= i <= |files|
    ensures Names(InsertAt(files, i, f), ino) == Names(files, ino) + Count(f.entries, ino)
    decreases |files|
  {
    var s := InsertAt(files, i, f);
    if i == |files| {
      assert s[..|s|-1] == files;
    } else {
      assert s[..|s|-1] == InsertAt(files[..|files|-1], i, f);
      NamesInsert(files[..|files|-1], i, f, ino);
    }
  }

  lemma NamesRemove(files: seq<File>, i: int, ino: nat)
    requires 0 <= i < |files|
    ensures Names(RemoveAt(files, i), ino) == Names(files, ino) - Count(files[i].entries, ino)
  {
    NamesInsert(RemoveAt(files, i), i, files[i], ino);
    RemoveInsert(files, i);
  }

  // ---- changes that keep everything consistent ------------------------

  lemma SameInodes(files: seq<File>, i: int, f: File, ino: nat)
    requires 0 <= i < |files| && f.inode == files[i].inode
    ensures Listed(files[i := f], ino) <==> Listed(files, ino)
  {
    var files' := files[i := f];
    if Listed(files, ino) {
      var k :| IsAt(files, k, ino);
      assert IsAt(files', k, ino);
    }
    if Listed(files', ino) {
      var k :| IsAt(files', k, ino);
      assert IsAt(files, k, ino);
    }
  }

  lemma InsertListed(files: seq<File>, k: int, f: File)
    requires 0 <= k <= |files|
    ensures forall ino :: Listed(InsertAt(files, k, f), ino) <==> Listed(files, ino) || ino == f.inode
  {
    var files' := InsertAt(files, k, f);
    forall ino ensures Listed(files', ino) <==> Listed(files, ino) || ino == f.inode {
      if Listed(files, ino) {
        var i :| IsAt(files, i, ino);
        assert IsAt(files', if i < k then i else i + 1, ino);
      }
      if ino == f.inode { assert IsAt(files', k, ino); }
      if Listed(files', ino) {
        var i :| IsAt(files', i, ino);
        if i != k { assert IsAt(files, if i < k then i else i - 1, ino); }
      }
    }
  }

  lemma InsertLinks(files: seq<File>, k: int, f: File)
    requires LinksOk(files) && 0 <= k <= |files| && f.entries == [] && f.inode != 0
    requires f.nlink == Names(files, f.inode)
    ensures LinksOk(InsertAt(files, k, f))
  {
    hide Names;
    var files' := InsertAt(files, k, f);
    forall i | 0 <= i < |files'| ensures LinkOk(files', files'[i]) {
      NamesInsert(files, k, f, files'[i].inode);
      if i == k {
        assert files'[i] == f;
      } else {
        assert files'[i] == files[if i < k then i else i - 1];
        assert LinkOk(files, files[if i < k then i else i - 1]);
      }
    }
  }

  lemma InsertSorted(files: seq<File>, k: int, f: File)
    requires Sorted(files) && 0 < k <= |files|
    requires forall i :: 0 <= i < k ==> files[i].inode < f.inode
    requires forall i :: k <= i < |files| ==> f.inode < files[i].inode
    ensures Sorted(InsertAt(files, k, f)) && f.inode > 0 && !Listed(files, f.inode)
  {
    var files' := InsertAt(files, k, f);
    forall i, j | 0 <= i < j < |files'| ensures files'[i].inode < files'[j].inode {
      assert i != k ==> files'[i] == files[if i < k then i else i - 1];
      assert j != k ==> files'[j] == files[if j < k then j else j - 1];
    }
  }

  lemma InsertEntries(files: seq<File>, k: int, f: File)
    requires EntriesOk(files) && 0 <= k <= |files| && f.entries == []
    ensures EntriesOk(InsertAt(files, k, f))
  {
    InsertListed(files, k, f);
    var files' := InsertAt(files, k, f);
    forall i | 0 <= i < |files'| && i != k
      ensures EntriesListed(files', files'[i].entries)
           && (files'[i].kind != Directory ==> files'[i].entries == [])
    {
      var u := if i < k then i else i - 1;
      assert files'[i] == files[u] && EntriesListed(files, files[u].entries);
    }
  }

  lemma InsertHandles(files: seq<File>, handles: multiset<nat>, k: int, f: File)
    requires HandlesOk(files, handles) && 0 <= k <= |files| && f.refcount == 0 && f.inode !in handles
    ensures HandlesOk(InsertAt(files, k, f), handles)
  {
    InsertListed(files, k, f);
    var files' := InsertAt(files, k, f);
    forall i | 0 <= i < |files'| ensures files'[i].refcount == handles[files'[i].inode] {
      assert i != k ==> files'[i] == files[if i < k then i else i - 1];
    }
  }

  /** A new unlinked, unopened inode in its place. */
  lemma InsertKeeps(files: seq<File>, handles: multiset<nat>, k: int, f: File)
    requires Consistent(files, handles) && 0 < k <= |files|
    requires forall i :: 0 <= i < k ==> files[i].inode < f.inode
    requires forall i :: k <= i < |files| ==> f.inode < files[i].inode
    requires f.nlink == 0 && f.refcount == 0 && f.entries == []
    ensures Consistent(InsertAt(files, k, f), handles)
  {
    hide LinksOk, EntriesOk, HandlesOk, Names;
    InsertSorted(files, k, f);
    NamedOrOpenIsListed(files, handles, f.inode);
    InsertLinks(files, k, f);
    InsertEntries(files, k, f);
    InsertHandles(files, handles, k, f);
  }

  lemma RemoveListed(files: seq<File>, k: int)
    requires 0 <= k < |files|
    ensures forall ino :: Listed(files, ino) && ino != files[k].inode ==> Listed(RemoveAt(files, k), ino)
  {
    var files' := RemoveAt(files, k);
    forall ino | Listed(files, ino) && ino != files[k].inode ensures Listed(files', ino) {
      var i :| IsAt(files, i, ino);
      assert IsAt(files', if i < k then i else i - 1, ino);
    }
  }

  lemma RemoveLinks(files: seq<File>, k: int)
    requires LinksOk(files) && 0 <= k < |files| && files[k].entries == []
    ensures LinksOk(RemoveAt(files, k))
  {
    hide Names;
    var files' := RemoveAt(files, k);
    forall i | 0 <= i < |files'| ensures LinkOk(files', files'[i]) {
      NamesRemove(files, k, files'[i].inode);
      assert files'[i] == files[if i < k then i else i + 1];
      assert LinkOk(files, files[if i < k then i else i + 1]);
    }
  }

  lemma RemoveEntriesOf(files: seq<File>, k: int, u: int)
    requires 0 <= k < |files| && 0 <= u < |files| && Names(files, files[k].inode) == 0
    requires EntriesListed(files, files[u].entries)
    ensures EntriesListed(RemoveAt(files, k), files[u].entries)
  {
    hide Names, Count, Listed;
    RemoveListed(files, k);
    OneOfNames(files, u, files[k].inode);
    forall j | 0 <= j < |files[u].entries| ensures Listed(RemoveAt(files, k), files[u].entries[j].ino) {
      SomeCounted(files[u].entries, j);
    }
  }

  lemma RemoveEntries(files: seq<File>, k: int)
    requires EntriesOk(files) && 0 <= k < |files| && Names(files, files[k].inode) == 0
    ensures EntriesOk(RemoveAt(files, k))
  {
    hide Names, EntriesListed;
    var files' := RemoveAt(files, k);
    forall i | 0 <= i < |files'|
      ensures EntriesListed(files', files'[i].entries)
           && (files'[i].kind != Directory ==> files'[i].entries == [])
    {
      var u := if i < k then i else i + 1;
      assert files'[i] == files[u];
      RemoveEntriesOf(files, k, u);
    }
  }

  lemma RemoveHandles(files: seq<File>, handles: multiset<nat>, k: int)
    requires HandlesOk(files, handles) && 0 <= k < |files| && files[k].refcount == 0
    ensures HandlesOk(RemoveAt(files, k), handles)
  {
    RemoveListed(files, k);
    var files' := RemoveAt(files, k);
    forall i | 0 <= i < |files'| ensures files'[i].refcount == handles[files'[i].inode] {
      assert files'[i] == files[if i < k then i else i + 1];
    }
  }

  lemma RemoveSorted(files: seq<File>, k: int)
    requires Sorted(files) && 0 < k < |files|
    ensures Sorted(RemoveAt(files, k)) && files[k].inode > 0
  {
    var files' := RemoveAt(files, k);
    forall i, j | 0 <= i < j < |files'| ensures files'[i].inode < files'[j].inode {
      assert files'[i] == files[if i < k then i else i + 1] && files'[j] == files[if j < k then j else j + 1];
    }
  }

  /** Taking out an inode that has neither a name, a handle nor entries. */
  lemma RemoveKeeps(files: seq<File>, handles: multiset<nat>, k: int)
    requires Consistent(files, handles) && 0 < k < |files|
    requires files[k].nlink == 0 && files[k].refcount == 0 && files[k].entries == []
    ensures Consistent(RemoveAt(files, k), handles)
  {
    hide Names;
    RemoveSorted(files, k);
    assert LinkOk(files, files[k]);
    RemoveLinks(files, k);
    RemoveEntries(files, k);
    RemoveHandles(files, handles, k);
  }

  /** Removing an unlinked inode leaves the link counts right exactly when it has no
      entries. */
  lemma RemoveKeepsLinksIff(files: seq<File>, k: int)
    requires Sorted(files) && LinksOk(files) && EntriesOk(files) && 0 < k < |files| && files[k].nlink == 0
    ensures LinksOk(RemoveAt(files, k)) <==> files[k].entries == []
  {
    if files[k].entries == [] {
      RemoveLinks(files, k);
    } else {
      var ino := files[k].entries[0].ino;
      assert EntriesListed(files, files[k].entries);
      var i :| IsAt(files, i, ino);
      SomeCounted(files[k].entries, 0);
      NamesRemove(files, k, ino);
      assert LinkOk(files, files[i]) && LinkOk(files, files[k]);
      OneOfNames(files, k, ino);
      var files', u := RemoveAt(files, k), if i < k then i else i - 1;
      assert i != k;
      assert files'[u] == files[i];
      assert !LinkOk(files', files'[u]);
    }
  }

  /** Removing an inode without names and handles, as unlink and close do, keeps the
      file system consistent exactly when the inode has no entries. */
  lemma RemoveConsistentIff(files: seq<File>, handles: multiset<nat>, k: int)
    requires Consistent(files, handles) && 0 < k < |files|
    requires files[k].nlink == 0 && files[k].refcount == 0
    ensures Consistent(RemoveAt(files, k), handles) <==> files[k].entries == []
  {
    hide LinksOk, EntriesOk, HandlesOk;
    RemoveKeepsLinksIff(files, k);
    if files[k].entries == [] { RemoveKeeps(files, handles, k); }
  }

  /** A link counted without an entry for it is one too many. */
  lemma LinkWithoutName(files: seq<File>, handles: multiset<nat>, c: int)
    requires Consistent(files, handles) && 0 <= c < |files|
    ensures !Consistent(files[c := files[c].(nlink := files[c].nlink + 1)], handles)
  {
    var files' := files[c := files[c].(nlink := files[c].nlink + 1)];
    NamesUpdate(files, c, files'[c], files[c].inode);
    assert LinkOk(files, files[c]) && !LinkOk(files', files'[c]);
  }

  // ---- names ------------------------------------------------------------

  /** The list after directory p has got an entry for file c. */
  function AddName(files: seq<File>, p: int, c: int, name: string): seq<File>
    requires 0 <= p < |files| && 0 <= c < |files|
  {
    var files1 := files[c := files[c].(nlink := files[c].nlink + 1)];
    files1[p := files1[p].(entries := InsertAt(files1[p].entries, |files1[p].entries|, Dirent(files[c].inode, name)))]
  }

  /** The list after entry j of directory p, which names file c, is gone. */
  function DropName(files: seq<File>, p: int, j: int, c: int): seq<File>
    requires 0 <= p < |files| && 0 <= j < |files[p].entries| && 0 <= c < |files| && files[c].nlink > 0
  {
    var files1 := files[p := files[p].(entries := RemoveAt(files[p].entries, j))];
    files1[c := files1[c].(nlink := files1[c].nlink - 1)]
  }

  /** Directory p has one more entry, the last, for file c under this name, file c has one
      more link, and nothing else is another. */
  predicate NameGiven(files: seq<File>, files': seq<File>, p: int, c: int, name: string) {
    && |files'| == |files| && 0 <= p < |files| && 0 <= c < |files|
    && forall i :: 0 <= i < |files| ==>
         files'[i] == File(files[i].inode, files[i].kind, files[i].nlink + (if i == c then 1 else 0), files[i].refcount,
                           files[i].entries + if i == p then [Dirent(files[c].inode, name)] else [])
  }

  lemma AddNameMeans(files: seq<File>, p: int, c: int, name: string)
    requires 0 <= p < |files| && 0 <= c < |files|
    ensures NameGiven(files, AddName(files, p, c, name), p, c, name)
  {
    InsertSlices(files[p].entries, |files[p].entries|, Dirent(files[c].inode, name));
  }

  /** File i when directory p has lost entry number j and file c one link. */
  function TakenAt(files: seq<File>, i: int, p: int, j: int, c: int): File
    requires 0 <= i < |files| && 0 <= p < |files| && 0 <= j < |files[p].entries|
    requires 0 <= c < |files| && files[c].nlink > 0
  {
    var entries := if i == p then files[i].entries[..j] + files[i].entries[j+1..] else files[i].entries;
    files[i].(entries := entries, nlink := if i == c then files[i].nlink - 1 else files[i].nlink)
  }

  /** Directory p has lost entry number j and file c one link; when it was the last the
      file is gone as well, and nothing else is another. */
  predicate NameTaken(files: seq<File>, files': seq<File>, p: int, j: int, c: int, gone: bool)
    requires 0 <= p < |files| && 0 <= j < |files[p].entries| && 0 <= c < |files| && files[c].nlink > 0
  {
    && |files'| == |files| - (if gone then 1 else 0)
    && forall i :: 0 <= i < |files| && !(gone && i == c) ==>
         var at := if gone && i > c then i - 1 else i;
         at < |files'| && files'[at] == TakenAt(files, i, p, j, c)
  }

  lemma DropNameMeans(files: seq<File>, p: int, j: int, c: int)
    requires 0 <= p < |files| && 0 <= j < |files[p].entries| && 0 <= c < |files| && files[c].nlink > 0
    ensures NameTaken(files, DropName(files, p, j, c), p, j, c, false)
    ensures NameTaken(files, RemoveAt(DropName(files, p, j, c), c), p, j, c, true)
  {
    RemoveSlices(files[p].entries, j);
    var dropped := DropName(files, p, j, c);
    forall i | 0 <= i < |files| ensures dropped[i] == TakenAt(files, i, p, j, c) {
    }
  }

  /** A new file at place k, and one entry more, the last, for it in the parent. */
  predicate NodeMade(files: seq<File>, files': seq<File>, k: int, parent: nat, inode: nat, kind: Kind, name: string) {
    && 0 < k <= |files| && |files'| == |files| + 1 && files'[k] == File(inode, kind, 1, 0, [])
    && forall i :: 0 <= i < |files| ==>
         files'[if i < k then i else i + 1] ==
         if files[i].inode == parent then files[i].(entries := files[i].entries + [Dirent(inode, name)]) else files[i]
  }

  lemma InsertAddMeans(files: seq<File>, k: int, p: int, parent: nat, f: File, name: string)
    requires Sorted(files) && 0 < k <= |files| && IsAt(InsertAt(files, k, f), p, parent) && parent != f.inode
    requires f.nlink == 0 && f.refcount == 0 && f.entries == []
    ensures NodeMade(files, AddName(InsertAt(files, k, f), p, k, name), k, parent, f.inode, f.kind, name)
  {
    var grown := InsertAt(files, k, f);
    var files' := AddName(grown, p, k, name);
    AddNameMeans(grown, p, k, name);
    assert p != k;
    forall i | 0 <= i < |files|
      ensures files'[if i < k then i else i + 1] ==
              if files[i].inode == parent then files[i].(entries := files[i].entries + [Dirent(f.inode, name)])
              else files[i]
    {
      var at := if i < k then i else i + 1;
      assert grown[at] == files[i];
      assert at == p <==> files[i].inode == parent;
    }
  }

  /** Sortedness, what is listed and the handle counts depend on inode numbers,
      kinds and refcounts only. */
  predicate SameFrame(files: seq<File>, files': seq<File>) {
    && |files| == |files'|
    && forall i :: 0 <= i < |files| ==>
         files'[i].inode == files[i].inode && files'[i].kind == files[i].kind && files'[i].refcount == files[i].refcount
  }

  lemma FrameKept(files: seq<File>, files': seq<File>, handles: multiset<nat>)
    requires SameFrame(files, files')
    ensures Sorted(files) ==> Sorted(files')
    ensures forall ino :: Listed(files, ino) <==> Listed(files', ino)
    ensures HandlesOk(files, handles) ==> HandlesOk(files', handles)
  {
    forall ino ensures Listed(files, ino) <==> Listed(files', ino) {
      if Listed(files, ino) { var i :| IsAt(files, i, ino); assert IsAt(files', i, ino); }
      if Listed(files', ino) { var i :| IsAt(files', i, ino); assert IsAt(files, i, ino); }
    }
  }

  lemma AddNameLinks(files: seq<File>, p: int, c: int, name: string)
    requires Sorted(files) && LinksOk(files) && 0 <= p < |files| && 0 <= c < |files|
    ensures LinksOk(AddName(files, p, c, name))
  {
    hide Names;
    var files' := AddName(files, p, c, name);
    forall i | 0 <= i < |files'| ensures LinkOk(files', files'[i]) {
      var ino := files[i].inode;
      var files1 := files[c := files[c].(nlink := files[c].nlink + 1)];
      NamesUpdate(files, c, files1[c], ino);
      NamesUpdate(files1, p, files'[p], ino);
      CountInsert(files1[p].entries, |files1[p].entries|, Dirent(files[c].inode, name), ino);
      assert LinkOk(files, files[i]);
      assert i != c ==> files[i].inode != files[c].inode;
    }
  }

  lemma DropNameLinks(files: seq<File>, p: int, j: int, c: int)
    requires Sorted(files) && LinksOk(files) && 0 <= p < |files| && 0 <= j < |files[p].entries|
    requires 0 <= c < |files| && files[p].entries[j].ino == files[c].inode && files[c].nlink > 0
    ensures LinksOk(DropName(files, p, j, c))
  {
    hide Names;
    var files' := DropName(files, p, j, c);
    forall i | 0 <= i < |files'| ensures LinkOk(files', files'[i]) {
      var ino := files[i].inode;
      var files1 := files[p := files[p].(entries := RemoveAt(files[p].entries, j))];
      NamesUpdate(files, p, files1[p], ino);
      NamesUpdate(files1, c, files'[c], ino);
      CountRemove(files[p].entries, j, ino);
      assert LinkOk(files, files[i]);
      assert i != c ==> files[i].inode != files[c].inode;
    }
  }

  /** A named inode has a positive link count. */
  lemma NamedHasLinks(files: seq<File>, p: int, j: int, c: int)
    requires LinksOk(files) && 0 <= p < |files| && 0 <= j < |files[p].entries|
    requires 0 <= c < |files| && files[p].entries[j].ino == files[c].inode
    ensures files[c].nlink > 0
  {
    SomeCounted(files[p].entries, j);
    OneOfNames(files, p, files[c].inode);
    assert LinkOk(files, files[c]);
  }

  lemma AddNameKeeps(files: seq<File>, handles: multiset<nat>, p: int, c: int, name: string)
    requires Consistent(files, handles) && 0 <= p < |files| && 0 <= c < |files|
    requires files[p].kind == Directory
    ensures Consistent(AddName(files, p, c, name), handles)
  {
    hide LinksOk, HandlesOk, Sorted, Listed;
    var files' := AddName(files, p, c, name);
    FrameKept(files, files', handles);
    AddNameLinks(files, p, c, name);
    assert Listed(files, files[c].inode) by { ListedAt(files, c); }
    forall i | 0 <= i < |files'|
      ensures EntriesListed(files', files'[i].entries)
           && (files'[i].kind != Directory ==> files'[i].entries == [])
    {
      assert EntriesListed(files, files[i].entries);
    }
  }

  lemma ListedAt(files: seq<File>, c: int)
    requires 0 <= c < |files|
    ensures Listed(files, files[c].inode)
  {
    assert IsAt(files, c, files[c].inode);
  }

  lemma DropNameKeeps(files: seq<File>, handles: multiset<nat>, p: int, j: int, c: int)
    requires Consistent(files, handles) && 0 <= p < |files| && 0 <= j < |files[p].entries|
    requires 0 <= c < |files| && files[p].entries[j].ino == files[c].inode
    ensures files[c].nlink > 0 && Consistent(DropName(files, p, j, c), handles)
  {
    hide LinksOk, HandlesOk, Sorted, Listed;
    NamedHasLinks(files, p, j, c);
    var files' := DropName(files, p, j, c);
    FrameKept(files, files', handles);
    DropNameLinks(files, p, j, c);
    forall i | 0 <= i < |files'|
      ensures EntriesListed(files', files'[i].entries)
           && (files'[i].kind != Directory ==> files'[i].entries == [])
    {
      assert EntriesListed(files, files[i].entries);
      assert i == p ==> files'[i].entries == RemoveAt(files[i].entries, j);
    }
  }

  lemma RefLinks(files: seq<File>, c: int, r: int)
    requires LinksOk(files) && 0 <= c < |files|
    ensures LinksOk(files[c := files[c].(refcount := r)])
  {
    hide Names;
    var files' := files[c := files[c].(refcount := r)];
    forall i | 0 <= i < |files'| ensures LinkOk(files', files'[i]) {
      NamesUpdate(files, c, files'[c], files[i].inode);
      assert LinkOk(files, files[i]);
    }
  }

  /** Opening (delta 1) or closing (delta -1) one handle of file c. */
  lemma RefKeeps(files: seq<File>, handles: multiset<nat>, handles': multiset<nat>, c: int, delta: int)
    requires Consistent(files, handles) && 0 <= c < |files|
    requires forall ino :: handles'[ino] == handles[ino] + if ino == files[c].inode then delta else 0
    ensures Consistent(files[c := files[c].(refcount := files[c].refcount + delta)], handles')
  {
    hide LinksOk, Listed;
    var files' := files[c := files[c].(refcount := files[c].refcount + delta)];
    RefLinks(files, c, files[c].refcount + delta);
    forall ino ensures Listed(files', ino) <==> Listed(files, ino) { SameInodes(files, c, files'[c], ino); }
    ListedAt(files, c);
    forall i | 0 <= i < |files'| ensures files'[i].refcount == handles'[files'[i].inode] {
      assert i != c ==> files[i].inode != files[c].inode;
    }
    forall i | 0 <= i < |files'| ensures EntriesListed(files', files'[i].entries) {
      assert EntriesListed(files, files[i].entries);
    }
  }
}
