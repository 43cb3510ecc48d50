/** The table of open files and its resizing (src/fs_inter.c). */
module Descriptors {

  /** An address of a cell that holds an index into the table; 0 is no descriptor. */
  type Fd = int

  /** A row of the table; `inode` is 0 if the row is not in use, and `owner` is the field called `this` in the source. */
  datatype Entry = Entry(inode: int, pos: int, size: int, mode: int, owner: Fd)

  const NO_ENTRY := Entry(0, 0, 0, 0, 0)

  /** Descriptor f leads to a row in use that leads back to it. */
  ghost predicate LinkedAt(rows: seq<Entry>, cells: map<Fd, int>, f: Fd)
    requires f in cells
  {
    f != 0 && 0 <= cells[f] < |rows| && rows[cells[f]].inode != 0 && rows[cells[f]].owner == f
  }

  ghost predicate Linked(rows: seq<Entry>, cells: map<Fd, int>)
  {
    forall f {:trigger LinkedAt(rows, cells, f)} :: f in cells ==> LinkedAt(rows, cells, f)
  }

  /** Row i, if it is in use, belongs to an open descriptor. */
  ghost predicate OwnedAt(rows: seq<Entry>, cells: map<Fd, int>, i: int)
    requires 0 <= i < |rows|
  {
    rows[i].inode != 0 ==> rows[i].owner in cells && cells[rows[i].owner] == i
  }

  ghost predicate Owned(rows: seq<Entry>, cells: map<Fd, int>)
  {
    forall i {:trigger OwnedAt(rows, cells, i)} :: 0 <= i < |rows| ==> OwnedAt(rows, cells, i)
  }

  /** What a user of a descriptor sees. */
  ghost function Files(rows: seq<Entry>, cells: map<Fd, int>): map<Fd, Entry>
    requires Linked(rows, cells)
  {
    map f | f in cells :: assert LinkedAt(rows, cells, f); rows[cells[f]]
  }

  /** How the rows of an old table reach a new one: rows up to i are done, the others still to come. */
  ghost predicate MovingAt(files: map<Fd, Entry>, old_: seq<Entry>, tmp: seq<Entry>, cells: map<Fd, int>, i: int, f: Fd)
    requires f in files && f in cells && 0 <= i <= |tmp| <= |old_|
  {
    && 0 <= cells[f] < |old_| && f != 0 && files[f].inode != 0 && files[f].owner == f
    && files[f] == if cells[f] < i then tmp[cells[f]] else old_[cells[f]]
  }

  ghost predicate Moving(files: map<Fd, Entry>, old_: seq<Entry>, tmp: seq<Entry>, cells: map<Fd, int>, i: int, done: set<Fd>)
  {
    && cells.Keys == files.Keys && 0 <= i <= |tmp| <= |old_| && done <= cells.Keys
    && (forall f {:trigger MovingAt(files, old_, tmp, cells, i, f)} :: f in cells ==> MovingAt(files, old_, tmp, cells, i, f))
    && (forall f :: f in done <==> f in cells && cells[f] < i)
    && (forall j {:trigger OwnedAt(old_, cells, j)} :: i <= j < |old_| ==> OwnedAt(old_, cells, j))
    && (|done| == i || done == cells.Keys)
  }

  /** A row in use is copied. */
  lemma CopyRow(files: map<Fd, Entry>, old_: seq<Entry>, tmp: seq<Entry>, cells: map<Fd, int>, i: int, done: set<Fd>)
    requires Moving(files, old_, tmp, cells, i, done) && i < |tmp| && old_[i].inode != 0
    ensures Moving(files, old_, tmp[i := old_[i]], cells, i + 1, done + {old_[i].owner})
  {
    var f := old_[i].owner;
    assert OwnedAt(old_, cells, i);
    var tmp' := tmp[i := old_[i]];
    forall d | d in cells ensures MovingAt(files, old_, tmp', cells, i + 1, d) && (cells[d] == i ==> d == f) {
      assert MovingAt(files, old_, tmp, cells, i, d);
    }
    forall j | i + 1 <= j < |old_| ensures OwnedAt(old_, cells, j) {}
  }

  /** A hole is filled from further up. */
  lemma FillHole(files: map<Fd, Entry>, old_: seq<Entry>, tmp: seq<Entry>, cells: map<Fd, int>, i: int, done: set<Fd>, j: int)
    requires Moving(files, old_, tmp, cells, i, done) && i < |tmp| && old_[i].inode == 0 && i < j < |old_| && old_[j].inode != 0
    ensures Moving(files, old_[j := old_[j].(inode := 0)], tmp[i := old_[j]], cells[old_[j].owner := i], i + 1, done + {old_[j].owner})
  {
    var f := old_[j].owner;
    assert OwnedAt(old_, cells, j);
    var old', tmp', cells' := old_[j := old_[j].(inode := 0)], tmp[i := old_[j]], cells[f := i];
    forall d | d in cells' ensures MovingAt(files, old', tmp', cells', i + 1, d) && (d != f ==> cells[d] != i && cells[d] != j) {
      assert MovingAt(files, old_, tmp, cells, i, d);
    }
    forall k | i + 1 <= k < |old'| ensures OwnedAt(old', cells', k) { assert OwnedAt(old_, cells, k); }
  }

  /** A hole stays if there is nothing further up; then every descriptor has been moved already. */
  lemma LeaveHole(files: map<Fd, Entry>, old_: seq<Entry>, tmp: seq<Entry>, cells: map<Fd, int>, i: int, done: set<Fd>)
    requires Moving(files, old_, tmp, cells, i, done) && i < |tmp| && forall j :: i <= j < |old_| ==> old_[j].inode == 0
    ensures Moving(files, old_, tmp, cells, i + 1, done) && done == cells.Keys && forall f :: f in cells ==> cells[f] < i
  {
    forall d | d in cells ensures d in done && MovingAt(files, old_, tmp, cells, i + 1, d) {
      assert MovingAt(files, old_, tmp, cells, i, d);
    }
  }

  /** Fewer descriptors than rows were offered a place: all of them found one. */
  lemma AllMoved(files: map<Fd, Entry>, old_: seq<Entry>, tmp: seq<Entry>, cells: map<Fd, int>, i: int, done: set<Fd>)
    requires Moving(files, old_, tmp, cells, i, done) && |cells| < i
    ensures Linked(tmp, cells) && Files(tmp, cells) == files && done == cells.Keys
    ensures forall f :: f in cells ==> cells[f] < i
  {
    if done != cells.Keys { Smaller(done, cells.Keys); }
    forall f | f in cells ensures LinkedAt(tmp, cells, f) && cells[f] < i && tmp[cells[f]] == files[f] {
      assert MovingAt(files, old_, tmp, cells, i, f);
    }
    FilesAre(tmp, cells, files);
  }

  lemma FilesAre(rows: seq<Entry>, cells: map<Fd, int>, files: map<Fd, Entry>)
    requires Linked(rows, cells) && cells.Keys == files.Keys
    requires forall f {:trigger LinkedAt(rows, cells, f)} :: f in cells && LinkedAt(rows, cells, f) ==> rows[cells[f]] == files[f]
    ensures Files(rows, cells) == files
  {
    forall f | f in files ensures Files(rows, cells)[f] == files[f] { assert LinkedAt(rows, cells, f); }
  }

  lemma Smaller(a: set<Fd>, b: set<Fd>)
    requires a <= b
    ensures |a| <= |b|
  {
    assert b == a + (b - a);
  }

  /** A descriptor leads to row i. */
  ghost predicate Taken(cells: map<Fd, int>, i: int)
  {
    exists f :: f in cells && cells[f] == i
  }

  /** Of the first i rows, the first n are taken. */
  ghost predicate Compact(cells: map<Fd, int>, i: int, n: int)
  {
    n <= i && forall k :: 0 <= k < i ==> (Taken(cells, k) <==> k < n)
  }

  /** Of the first i rows of a new table, those that no descriptor leads to are as they were; so are all others. */
  ghost predicate Untouched(tmp: seq<Entry>, memory: seq<Entry>, cells: map<Fd, int>, i: int)
  {
    |tmp| == |memory| && forall k :: 0 <= k < |tmp| && !(k < i && Taken(cells, k)) ==> tmp[k] == memory[k]
  }

  class Table {
    var rows: array<Entry>
    var num: int
    var cells: map<Fd, int>   // the value behind each open descriptor

    ghost predicate Shape()
      reads this, rows
    {
      rows.Length > 0 && Linked(rows[..], cells) && |cells| <= num
    }

    /** The rows in use are exactly those of the open descriptors. */
    ghost predicate Valid()
      reads this, rows
    {
      Shape() && Owned(rows[..], cells)
    }

    ghost function View(): map<Fd, Entry>
      reads this, rows
      requires Shape()
    {
      Files(rows[..], cells)
    }

    /** `fs_inter_install` */
    constructor ()
      ensures Valid() && fresh(rows) && View() == map[]
    {
      rows := new Entry[256](_ => NO_ENTRY);
      num := 0;
      cells := map[];
    }

    method LastUsed(i: int) returns (j: int)
      requires 0 <= i < rows.Length
      ensures i <= j < rows.Length && (j > i ==> rows[j].inode != 0)
      ensures j == i ==> forall k :: i < k < rows.Length ==> rows[k].inode == 0
    {
      j := rows.Length - 1;
      while j > i
        invariant i <= j < rows.Length && forall k :: j < k < rows.Length ==> rows[k].inode == 0
      {
        if rows[j].inode != 0 {
          break;
        }
        j := j - 1;
      }
    }

    /** One turn of the loop that shrinks the table. */
    method MoveRow(tmp: array<Entry>, i: int, ghost files: map<Fd, Entry>, ghost done: set<Fd>, ghost memory: seq<Entry>) returns (ghost done': set<Fd>)
      requires rows != tmp && Moving(files, rows[..], tmp[..], cells, i, done) && i < tmp.Length && Untouched(tmp[..], memory, cells, i)
      requires Compact(cells, i, |done|)
      modifies rows, tmp, this`cells
      ensures Moving(files, rows[..], tmp[..], cells, i + 1, done') && Untouched(tmp[..], memory, cells, i + 1)
      ensures Compact(cells, i + 1, |done'|)
    {
      ghost var old_, new_ := rows[..], tmp[..];
      if rows[i].inode != 0 {
        CopyRow(files, old_, new_, cells, i, done);
        CompactCopy(old_, cells, i, done);
        done' := done + {rows[i].owner};
        tmp[i] := rows[i];
      } else {
        var j := LastUsed(i);
        if j > i {
          done' := Pull(tmp, i, j, files, done, memory);
        } else {
          LeaveHole(files, old_, new_, cells, i, done);
          CompactLeave(cells, i, done);
          done' := done;
        }
      }
    }

    /** Row j moves to the hole i. */
    method Pull(tmp: array<Entry>, i: int, j: int, ghost files: map<Fd, Entry>, ghost done: set<Fd>, ghost memory: seq<Entry>) returns (ghost done': set<Fd>)
      requires rows != tmp && Moving(files, rows[..], tmp[..], cells, i, done) && i < tmp.Length && Untouched(tmp[..], memory, cells, i)
      requires Compact(cells, i, |done|) && i < j < rows.Length && rows[i].inode == 0 && rows[j].inode != 0
      modifies rows, tmp, this`cells
      ensures Moving(files, rows[..], tmp[..], cells, i + 1, done') && Untouched(tmp[..], memory, cells, i + 1)
      ensures Compact(cells, i + 1, |done'|)
    {
      ghost var old_ := rows[..];
      FillHole(files, old_, tmp[..], cells, i, done, j);
      CompactFill(old_, cells, i, done, j);
      done' := done + {rows[j].owner};
      tmp[i] := rows[j];
      cells := cells[rows[j].owner := i];
      rows[j] := rows[j].(inode := 0);
    }

    method FirstUnused() returns (i: int)
      ensures 0 <= i <= rows.Length && (i < rows.Length ==> rows[i].inode == 0)
      ensures forall k :: 0 <= k < i ==> rows[k].inode != 0
    {
      i := 0;
      while i < rows.Length && rows[i].inode != 0
        invariant 0 <= i <= rows.Length && forall k :: 0 <= k < i ==> rows[k].inode != 0
      {
        i := i + 1;
      }
    }

    /** The table doubled. */
    method Expand()
      requires Valid()
      modifies this`rows
      ensures Valid() && fresh(rows) && rows.Length == 2 * old(rows.Length) && View() == old(View())
      ensures forall i :: old(rows.Length) <= i < rows.Length ==> rows[i].inode == 0
    {
      ghost var was := rows[..];
      var tmp := new Entry[2 * rows.Length];
      var j := 0;
      while j < rows.Length
        invariant rows == old(rows) && 0 <= j <= rows.Length && tmp[..j] == rows[..j] && rows[..] == was
      {
        tmp[j] := rows[j];
        j := j + 1;
      }
      while j < 2 * rows.Length
        invariant rows == old(rows) && rows.Length <= j <= 2 * rows.Length && tmp[..rows.Length] == was && forall k :: rows.Length <= k < j ==> tmp[k].inode == 0
      {
        tmp[j] := tmp[j].(inode := 0);
        j := j + 1;
      }
      rows := tmp;
      Longer(was, rows[..], cells);
    }

    /**
     * `openfile` from the search for a free row on. The caller gives what the file system answers: the inode found
     * (0 if none), the one created if it is needed (0 if that fails), its size, and the address of the new cell.
     */
    method Open(found: int, creates: bool, exclusive: bool, truncate: bool, append: bool, mode: int, created: int, length: int, cell: Fd) returns (f: Fd)
      requires Valid() && cell != 0 && cell !in cells
      modifies this, rows
      ensures Valid()
      ensures f == 0 <==> (found == 0 && !creates) || (found != 0 && exclusive) || (found == 0 && created == 0)
      ensures f == 0 ==> View() == old(View())
      ensures num == old(num) + if (found == 0 && !creates) || (found != 0 && exclusive) then 0 else 1
      ensures f != 0 ==> var size := if truncate then 0 else length;
                f == cell && View() == old(View())[f := Entry(if found != 0 then found else created, if append then size else 0, size, mode % 4, f)]
    {
      f := 0;
      if !(creates || found != 0) || (exclusive && found != 0) {
        return;
      }
      var i := FirstUnused();
      if i == rows.Length {
        Expand();
      }
      num := num + 1;   // even if the creation fails
      var inode := if found != 0 then found else created;
      if inode == 0 {
        return;
      }
      var size := if truncate then 0 else length;   // erase_file_data
      Occupy(i, Entry(inode, if append then size else 0, size, mode % 4, cell));
      f := cell;
    }

    method Occupy(i: int, e: Entry)
      requires rows.Length > 0 && Linked(rows[..], cells) && Owned(rows[..], cells) && |cells| < num
      requires 0 <= i < rows.Length && rows[i].inode == 0 && e.inode != 0 && e.owner != 0 && e.owner !in cells
      modifies this`cells, rows
      ensures Valid() && num == old(num) && View() == Files(old(rows[..]), old(cells))[e.owner := e]
    {
      ghost var was, before := rows[..], cells;
      rows[i] := e;
      cells := cells[e.owner := i];
      assert cells.Keys == before.Keys + {e.owner};
      forall g | g in cells ensures LinkedAt(rows[..], cells, g) && (g != e.owner ==> rows[cells[g]] == was[before[g]]) {
        if g != e.owner { assert LinkedAt(was, before, g); }
      }
      forall k | 0 <= k < rows.Length ensures OwnedAt(rows[..], cells, k) { assert OwnedAt(was, before, k); }
      FilesAre(rows[..], cells, Files(was, before)[e.owner := e]);
    }

    /** The table halved; `memory` is what the new one held before. */
    method Shrink(memory: seq<Entry>)
      requires Valid() && |cells| < rows.Length / 4 && |memory| == rows.Length / 2
      modifies this, rows
      ensures Shape() && num == old(num) && fresh(rows) && rows.Length == old(rows.Length) / 2 && View() == old(View())
      ensures Untouched(rows[..], memory, cells, rows.Length)
      ensures |cells| == |old(cells)| && Compact(cells, rows.Length, |cells|)
    {
      var tmp := new Entry[rows.Length / 2](i requires 0 <= i < |memory| => memory[i]);
      ghost var files, done := View(), {};
      var n := rows.Length / 4;
      var i := 0;
      StartMoving(rows[..], tmp[..], cells);
      while i < n
        invariant 0 <= i <= n && rows == old(rows) && n <= tmp.Length <= rows.Length
        invariant Moving(files, rows[..], tmp[..], cells, i, done)
        invariant |cells| == |old(cells)| && num == old(num)
        invariant Untouched(tmp[..], memory, cells, i) && Compact(cells, i, |done|)
      {
        done := MoveRow(tmp, i, files, done, memory);
        i := i + 1;
      }
      AllMoved(files, rows[..], tmp[..], cells, i, done);
      rows := tmp;
    }

    /**
     * `close`: the descriptor is gone, every other one leads to the same file, whether the table shrank or not.
     * Shrinking packs the open rows in front, so afterwards the rows in use are again exactly the open ones if and
     * only if the new table's memory happened to be clear behind them.
     */
    method Close(f: Fd, memory: seq<Entry>)
      requires Valid() && (f == 0 || f in cells) && |memory| == rows.Length / 2
      modifies this, rows
      ensures Shape() && View() == old(View()) - {f} && num == old(num) - if f == 0 then 0 else 1
      ensures var shrinks := f != 0 && 64 < old(num) - 1 < old(rows.Length) / 4;
              if shrinks then rows.Length == |memory| && (Valid() <==> forall i :: |old(cells)| - 1 <= i < |memory| ==> memory[i].inode == 0)
              else rows == old(rows) && Valid()
    {
      if f == 0 {
        forall g | g in cells ensures g != f { assert LinkedAt(rows[..], cells, g); }
        assert View() - {f} == View();
        return;
      }
      Drop(f);
      if 64 < num < rows.Length / 4 {
        Shrink(memory);
        PackedIff(rows[..], cells, memory);
      }
    }

    method Drop(f: Fd)
      requires Valid() && f in cells
      modifies this, rows
      ensures Valid() && View() == old(View()) - {f} && num == old(num) - 1 && rows == old(rows) && |cells| == |old(cells)| - 1
    {
      ghost var was := rows[..];
      assert LinkedAt(was, cells, f);
      ghost var before := cells;
      rows[cells[f]] := rows[cells[f]].(inode := 0, owner := 0);
      cells := cells - {f};
      num := num - 1;
      assert cells.Keys == before.Keys - {f};
      forall g | g in cells ensures LinkedAt(rows[..], cells, g) && rows[cells[g]] == was[cells[g]] { assert LinkedAt(was, before, g); }
      forall i | 0 <= i < rows.Length ensures OwnedAt(rows[..], cells, i) { assert OwnedAt(was, before, i); }
      FilesAre(rows[..], cells, old(View()) - {f});
    }
  }

  lemma CompactCopy(rows: seq<Entry>, cells: map<Fd, int>, i: int, done: set<Fd>)
    requires 0 <= i < |rows| && OwnedAt(rows, cells, i) && rows[i].inode != 0 && Compact(cells, i, |done|)
    requires (forall f :: f in done <==> f in cells && cells[f] < i) && (|done| == i || done == cells.Keys)
    ensures Compact(cells, i + 1, |done + {rows[i].owner}|) && Taken(cells, i)
  {
    var f := rows[i].owner;
    assert f in cells && cells[f] == i && f !in done;
    assert |done + {f}| == i + 1;
  }

  lemma CompactFill(rows: seq<Entry>, cells: map<Fd, int>, i: int, done: set<Fd>, j: int)
    requires 0 <= i < j < |rows| && OwnedAt(rows, cells, j) && rows[j].inode != 0 && Compact(cells, i, |done|)
    requires (forall f :: f in done <==> f in cells && cells[f] < i) && (|done| == i || done == cells.Keys)
    ensures var cells' := cells[rows[j].owner := i];
            Compact(cells', i + 1, |done + {rows[j].owner}|) && Taken(cells', i) && forall k :: k < i && Taken(cells, k) ==> Taken(cells', k)
  {
    var f := rows[j].owner;
    assert f in cells && cells[f] == j && f !in done;
    assert |done + {f}| == i + 1;
    Redirected(cells, f, i, j);
    var cells' := cells[f := i];
    forall k | 0 <= k < i ensures Taken(cells', k) { assert Taken(cells, k); }
  }

  lemma CompactLeave(cells: map<Fd, int>, i: int, done: set<Fd>)
    requires Compact(cells, i, |done|) && forall f :: f in cells ==> cells[f] < i
    ensures Compact(cells, i + 1, |done|) && !Taken(cells, i)
  {
  }

  lemma Redirected(cells: map<Fd, int>, f: Fd, i: int, j: int)
    requires f in cells && cells[f] == j && i < j
    ensures Taken(cells[f := i], i) && forall k :: k < i && Taken(cells, k) ==> Taken(cells[f := i], k)
  {
    var cells' := cells[f := i];
    assert f in cells' && cells'[f] == i;
    forall k | k < i && Taken(cells, k) ensures Taken(cells', k) {
      var g :| g in cells && cells[g] == k;
      assert g in cells' && cells'[g] == k;
    }
  }

  lemma Longer(rows: seq<Entry>, more: seq<Entry>, cells: map<Fd, int>)
    requires Linked(rows, cells) && Owned(rows, cells) && |rows| <= |more| && more[..|rows|] == rows
    requires forall i :: |rows| <= i < |more| ==> more[i].inode == 0
    ensures Linked(more, cells) && Owned(more, cells) && Files(more, cells) == Files(rows, cells)
  {
    assert forall i :: 0 <= i < |rows| ==> more[i] == rows[i];
    forall f | f in cells ensures LinkedAt(more, cells, f) && more[cells[f]] == rows[cells[f]] { assert LinkedAt(rows, cells, f); }
    forall i | 0 <= i < |more| ensures OwnedAt(more, cells, i) { if i < |rows| { assert OwnedAt(rows, cells, i); } }
    FilesAre(more, cells, Files(rows, cells));
  }

  lemma StartMoving(rows: seq<Entry>, tmp: seq<Entry>, cells: map<Fd, int>)
    requires Linked(rows, cells) && Owned(rows, cells) && |tmp| <= |rows|
    ensures Moving(Files(rows, cells), rows, tmp, cells, 0, {})
  {
    forall f | f in cells ensures MovingAt(Files(rows, cells), rows, tmp, cells, 0, f) { assert LinkedAt(rows, cells, f); }
  }

  /** After packing, the rows in use are those of open descriptors exactly if the memory behind them is clear. */
  lemma PackedIff(rows: seq<Entry>, cells: map<Fd, int>, memory: seq<Entry>)
    requires Linked(rows, cells) && Untouched(rows, memory, cells, |rows|) && Compact(cells, |rows|, |cells|)
    ensures Owned(rows, cells) <==> forall i :: |cells| <= i < |memory| ==> memory[i].inode == 0
  {
    if Owned(rows, cells) {
      forall i | |cells| <= i < |memory| ensures memory[i].inode == 0 { assert !Taken(cells, i) && OwnedAt(rows, cells, i); }
    }
    if forall i :: |cells| <= i < |memory| ==> memory[i].inode == 0 {
      forall i | 0 <= i < |rows| ensures OwnedAt(rows, cells, i) {
        if Taken(cells, i) {
          var f :| f in cells && cells[f] == i;
          assert LinkedAt(rows, cells, f);
        }
      }
    }
  }

  /** Memory full of old rows breaks it, whatever the table was: there are rows in use that no descriptor leads to. */
  lemma DirtyMemory(rows: seq<Entry>, cells: map<Fd, int>, memory: seq<Entry>)
    requires Linked(rows, cells) && Untouched(rows, memory, cells, |rows|) && Compact(cells, |rows|, |cells|) && |cells| < |rows|
    requires memory == seq(|rows|, _ => Entry(1, 0, 0, 1, 0))
    ensures !Owned(rows, cells)
  {
    PackedIff(rows, cells, memory);
    assert memory[|cells|].inode == 1;
  }
}
