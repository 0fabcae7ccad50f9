/** Limiting and tracking the segments of files that are being written to the store. */
module WriteControl {
  import opened Wrappers

  datatype SlotStatus = Writing | Finished

  /** A sliding window over the segments of one file. */
  class CtrlWindow {
    const size: nat
    var leftBoundary: nat
    var slots: map<nat, SlotStatus>
    ghost var finished: set<nat>

    /** The left boundary is the first unfinished segment, and slots lie within the window. */
    ghost predicate Valid()
      reads this
    {
      && (forall k :: k in slots ==> leftBoundary <= k < leftBoundary + size)
      && (forall k: nat :: k in finished <==> k < leftBoundary || (k in slots && slots[k].Finished?))
      && leftBoundary !in finished
    }

    ghost predicate Open(index: nat)
      reads this
    {
      index in slots && slots[index].Writing?
    }

    constructor (windowSize: nat)
      ensures Valid() && size == windowSize && leftBoundary == 0 && slots == map[] && finished == {}
    {
      size, leftBoundary, slots := windowSize, 0, map[];
      finished := {};
    }

    predicate CheckDuplicate(index: nat): (r: bool)
      reads this
      ensures Valid() ==> (r <==> index in finished || Open(index))
    {
      index < leftBoundary || index in slots
    }

    method StartWriting(index: nat) returns (ok: bool)
      requires Valid() && !CheckDuplicate(index)
      modifies this
      ensures Valid() && finished == old(finished) && leftBoundary == old(leftBoundary)
      ensures ok <==> index < old(leftBoundary) + size
      ensures slots == if ok then old(slots)[index := Writing] else old(slots)
      ensures forall k :: Open(k) <==> old(Open(k)) || (ok && k == index)
    {
      if index >= leftBoundary + size {
        return false;
      }
      slots := slots[index := Writing];
      return true;
    }

    method RollbackWriting(index: nat)
      requires Valid() && Open(index)
      modifies this
      ensures Valid() && finished == old(finished) && slots == old(slots) - {index}
    {
      slots := slots - {index};
    }

    method FinishWriting(index: nat)
      requires Valid() && Open(index)
      modifies this
      ensures Valid() && finished == old(finished) + {index}
      ensures forall k :: Open(k) <==> old(Open(k)) && k != index
    {
      slots := slots[index := Finished];
      finished := finished + {index};
      var left := leftBoundary;
      while left in slots && slots[left].Finished?
        invariant leftBoundary <= left && leftBoundary == old(leftBoundary) && finished == old(finished) + {index}
        invariant forall k :: k in slots ==> left <= k < leftBoundary + size
        invariant forall k: nat :: k in finished <==> k < left || (k in slots && slots[k].Finished?)
        invariant forall k :: Open(k) <==> old(Open(k)) && k != index
        decreases slots.Keys
      {
        slots := slots - {left};
        left := left + 1;
      }
      leftBoundary := left;
    }
  }

  datatype FileId = FileId(root: nat, txId: nat)

  datatype FileWriteCtrl = FileWriteCtrl(id: FileId, totalSegments: nat, window: CtrlWindow)

  datatype WriteError = TransactionReverted | SizeMismatch | TooManyWritings | OutsideWindow

  datatype Slot = Slot(root: nat, index: nat)

  class ChunkPoolWriteCtrl {
    const windowSize: nat
    const maxWritings: nat
    var files: map<nat, FileWriteCtrl>
    var totalWritings: nat
    ghost var open: set<Slot>
    ghost var lost: nat  // slots that were open when their file was removed

    ghost function Windows(): set<CtrlWindow>
      reads this
    {
      set root | root in files :: files[root].window
    }

    /**
     * The counter is at most the limit, and it exceeds the number of open slots by exactly the
     * slots that were lost with their file.
     */
    ghost predicate Valid()
      reads this, Windows()
    {
      && (forall r :: r in files ==> FileOk(r))
      && (forall r, s :: r in files && s in files && r != s ==> files[r].window != files[s].window)
      && (forall slot: Slot :: slot in open <==> IsOpen(slot.root, slot.index))
      && totalWritings == |open| + lost
      && totalWritings <= maxWritings
    }

    ghost predicate FileOk(root: nat)
      requires root in files
      reads this, Windows()
    {
      files[root].window.Valid() && files[root].id.root == root && files[root].window.size == windowSize
    }

    ghost predicate IsOpen(root: nat, index: nat)
      reads this, Windows()
    {
      root in files && files[root].window.Open(index)
    }

    /** All segments of the file are in the store. */
    ghost predicate Complete(root: nat)
      reads this, Windows()
    {
      root in files && forall k :: 0 <= k < files[root].totalSegments ==> k in files[root].window.finished
    }

    constructor (window: nat, max: nat)
      ensures Valid() && windowSize == window && maxWritings == max && files == map[] && open == {} && lost == 0
    {
      windowSize, maxWritings := window, max;
      files, totalWritings := map[], 0;
      open, lost := {}, 0;
    }

    /** Open slots go away with their file, but the counter is not told. */
    method RemoveFile(root: nat) returns (r: Option<FileWriteCtrl>)
      requires Valid()
      modifies this
      ensures Valid() && files == old(files) - {root} && totalWritings == old(totalWritings)
      ensures r == if root in old(files) then Some(old(files)[root]) else None
      ensures open == old(open) - SlotsOf(root, old(open))
      ensures lost == old(lost) + |SlotsOf(root, old(open))|
    {
      hide CtrlWindow.Valid, CtrlWindow.Open;
      ghost var gone := SlotsOf(root, open);
      Split(open, gone);
      r := if root in files then Some(files[root]) else None;
      ghost var before := files;
      files := files - {root};
      open, lost := open - gone, lost + |gone|;
      forall r | r in files ensures FileOk(r) {
        assert files[r] == before[r] && old(FileOk(r));
      }
      forall slot: Slot ensures slot in open <==> IsOpen(slot.root, slot.index) {
        assert old(slot in open <==> IsOpen(slot.root, slot.index));
      }
    }

    method WriteSegment(id: FileId, segIndex: nat, totalSegments: nat) returns (error: Option<WriteError>)
      requires Valid()
      modifies this, Windows()
      ensures Valid() && fresh(Windows() - old(Windows()))
      ensures error == Some(TransactionReverted) <==> id.root in old(files) && old(files)[id.root].id != id
      ensures files.Keys ==
        if error == Some(TransactionReverted) then old(files).Keys - {id.root} else old(files).Keys + {id.root}
      ensures error == Some(TransactionReverted) ==>
        && id.root !in files && open == old(open) - SlotsOf(id.root, old(open))
        && lost == old(lost) + |SlotsOf(id.root, old(open))| && totalWritings == old(totalWritings)
      ensures error != Some(TransactionReverted) ==>
        totalWritings == old(totalWritings) + if error.None? && !old(Known(id.root, segIndex)) then 1 else 0
      ensures error != Some(TransactionReverted) ==>
        && id.root in files && lost == old(lost)
        && files[id.root].id == id
        && (error == Some(SizeMismatch) <==> files[id.root].totalSegments != totalSegments)
        && open == if error.None? && !old(Known(id.root, segIndex)) then old(open) + {Slot(id.root, segIndex)} else old(open)
      ensures error == Some(TooManyWritings) ==> old(totalWritings) == maxWritings && !Known(id.root, segIndex)
      ensures error == Some(OutsideWindow) ==>
        totalWritings < maxWritings && segIndex >= files[id.root].window.leftBoundary + windowSize && !Known(id.root, segIndex)
      ensures error.None? ==> Known(id.root, segIndex)
      ensures forall r :: r in files && r in old(files) ==>
        files[r] == old(files)[r] && files[r].window.finished == old(files[r].window.finished)
      ensures id.root in files && id.root !in old(files) ==>
        files[id.root].totalSegments == totalSegments && files[id.root].window.finished == {}
      ensures old(Complete(id.root)) && segIndex < totalSegments ==> open <= old(open)
    {
      hide Valid, FileOk, IsOpen, CtrlWindow.Valid, CtrlWindow.Open;
      ValidTotal();
      FileEntry(id, totalSegments);
      var file := files[id.root];
      if file.id != id {
        var _ := RemoveFile(id.root);
        return Some(TransactionReverted);
      }
      if file.totalSegments != totalSegments {
        return Some(SizeMismatch);
      }
      if file.window.CheckDuplicate(segIndex) {
        return None;
      }
      if totalWritings >= maxWritings {
        return Some(TooManyWritings);
      }
      error := Start(id.root, segIndex);
    }

    lemma ValidTotal()
      requires Valid()
      ensures totalWritings <= maxWritings
      ensures forall r :: r in files ==> files[r].id.root == r
    {
      forall r | r in files ensures files[r].id.root == r {
        assert FileOk(r);
      }
    }

    /** The control of the file is made if there is none. */
    method FileEntry(id: FileId, totalSegments: nat)
      requires Valid()
      modifies this
      ensures Valid() && fresh(Windows() - old(Windows()))
      ensures open == old(open) && lost == old(lost) && totalWritings == old(totalWritings)
      ensures id.root in files
      ensures id.root in old(files) ==> files == old(files)
      ensures id.root !in old(files) ==>
        && files == old(files)[id.root := files[id.root]] && files[id.root].id == id
        && files[id.root].totalSegments == totalSegments
        && fresh(files[id.root].window) && files[id.root].window.finished == {}
        && (forall k :: !files[id.root].window.CheckDuplicate(k))
    {
      if id.root !in files {
        var window := new CtrlWindow(windowSize);
        ghost var before := files;
        files := files[id.root := FileWriteCtrl(id, totalSegments, window)];
        forall r | r in files ensures FileOk(r) {
          assert r in before ==> files[r] == before[r];
        }
      }
    }

    /** A slot is opened in the window of a file that has room for it. */
    method Start(root: nat, segIndex: nat) returns (error: Option<WriteError>)
      requires Valid() && root in files && !Known(root, segIndex) && totalWritings < maxWritings
      modifies this, files[root].window
      ensures Valid() && files == old(files) && lost == old(lost)
      ensures files[root].window.finished == old(files[root].window.finished)
      ensures segIndex !in files[root].window.finished
      ensures error.None? ==> Known(root, segIndex)
      ensures error.None? <==> segIndex < old(files[root].window.leftBoundary) + windowSize
      ensures error.None? ==> open == old(open) + {Slot(root, segIndex)} && totalWritings == old(totalWritings) + 1
      ensures error.Some? ==>
        && error == Some(OutsideWindow) && open == old(open) && totalWritings == old(totalWritings)
        && segIndex >= files[root].window.leftBoundary + windowSize && !Known(root, segIndex)
    {
      hide CtrlWindow.Valid, CtrlWindow.Open;
      error := StartIn(root, segIndex);
      assert Slot(root, segIndex) !in open;
      if error.None? {
        totalWritings := totalWritings + 1;
        open := open + {Slot(root, segIndex)};
      }
    }

    /** The window takes the slot, or does not reach that far. */
    method StartIn(root: nat, segIndex: nat) returns (error: Option<WriteError>)
      requires Valid() && root in files && !Known(root, segIndex)
      modifies files[root].window
      ensures forall r :: r in files ==> FileOk(r)
      ensures files[root].window.finished == old(files[root].window.finished) && segIndex !in files[root].window.finished
      ensures error.None? <==> segIndex < old(files[root].window.leftBoundary) + windowSize
      ensures error.None? ==> Known(root, segIndex)
      ensures error.Some? ==>
        && error == Some(OutsideWindow)
        && segIndex >= files[root].window.leftBoundary + windowSize && !Known(root, segIndex)
      ensures !old(IsOpen(root, segIndex))
      ensures forall slot: Slot :: IsOpen(slot.root, slot.index) <==>
        old(IsOpen(slot.root, slot.index)) || (error.None? && slot == Slot(root, segIndex))
    {
      assert FileOk(root);
      var ok := files[root].window.StartWriting(segIndex);
      forall r | r in files ensures FileOk(r) {
        assert old(FileOk(r));
      }
      error := if ok then None else Some(OutsideWindow);
    }

    /** The segment is finished or being written. */
    ghost predicate Known(root: nat, index: nat)
      reads this, Windows()
    {
      root in files && files[root].window.CheckDuplicate(index)
    }

    /** Reports completion exactly when no segment is missing any more, and so only once. */
    method OnWriteSucceeded(root: nat, segIndex: nat) returns (done: bool)
      requires Valid()
      requires root in files ==> Slot(root, segIndex) in open
      modifies this, Windows()
      ensures Valid() && files == old(files) && lost == old(lost)
      ensures open == old(open) - {Slot(root, segIndex)}
      ensures root in files ==> files[root].window.finished == old(files[root].window.finished) + {segIndex}
      ensures forall r :: r in files && r != root ==> files[r].window.finished == old(files[r].window.finished)
      ensures done <==> Complete(root)
      ensures done && segIndex < files[root].totalSegments ==> !old(Complete(root))
      ensures done ==> forall k :: 0 <= k < files[root].totalSegments ==> Slot(root, k) !in open
    {
      if root !in files {
        assert Slot(root, segIndex) !in open;
        return false;
      }
      var file := files[root];
      file.window.FinishWriting(segIndex);
      assert Slot(root, segIndex) in open;
      totalWritings := totalWritings - 1;
      open := open - {Slot(root, segIndex)};
      return file.window.leftBoundary >= file.totalSegments;
    }

    method OnWriteFailed(root: nat, segIndex: nat)
      requires Valid()
      requires root in files ==> Slot(root, segIndex) in open
      modifies this, Windows()
      ensures Valid() && files == old(files) && lost == old(lost)
      ensures open == old(open) - {Slot(root, segIndex)}
      ensures forall r :: r in files ==> files[r].window.finished == old(files[r].window.finished)
    {
      if root !in files {
        assert Slot(root, segIndex) !in open;
        return;
      }
      var file := files[root];
      file.window.RollbackWriting(segIndex);
      assert Slot(root, segIndex) in open;
      totalWritings := totalWritings - 1;
      open := open - {Slot(root, segIndex)};
    }
  }

  ghost function SlotsOf(root: nat, open: set<Slot>): set<Slot> {
    set slot | slot in open && slot.root == root
  }

  lemma Split(all: set<Slot>, part: set<Slot>)
    requires part <= all
    ensures |all| == |all - part| + |part|
  {
    assert all == (all - part) + part;
  }
}
