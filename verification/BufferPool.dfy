/** Fixed set of page frames with clock eviction (src/storage/buffer_pool.cpp). */
module BufferPool {
  import opened Arith
  import opened Bytes
  import opened Disk
  import opened LogRecords
  import opened Seqs
  import opened Wal
  import opened Recovery
  import TS = TxnSystem

  datatype PageFrame = PageFrame(
    page: PageId, valid: bool, dirty: bool, ref: bool, pin: nat, data: Page, before: Page)

  const NO_PAGE := PageId(0, 0)

  function EmptyFrame(): PageFrame {
    PageFrame(NO_PAGE, false, false, false, 0, ZeroPage(), ZeroPage())
  }

  // ---- page differences, in words of 8 bytes ----

  const WORD := 8
  const WORDS := 512

  predicate Differs(a: Page, b: Page, w: nat)
    requires w < WORDS
  {
    a[w * WORD..w * WORD + WORD] != b[w * WORD..w * WORD + WORD]
  }

  /** End of the run of differing words that starts at w. */
  function RunEnd(a: Page, b: Page, w: nat): (e: nat)
    requires w <= WORDS
    ensures w <= e <= WORDS
    ensures forall i :: w <= i < e ==> Differs(a, b, i)
    ensures e < WORDS ==> !Differs(a, b, e)
    decreases WORDS - w
  {
    if w < WORDS && Differs(a, b, w) then RunEnd(a, b, w + 1) else w
  }

  /** A maximal run of differing words, from word lo up to word hi. */
  datatype Span = Span(lo: nat, hi: nat)

  /** The maximal runs at or after word w, in order. */
  function Runs(a: Page, b: Page, w: nat): (rs: seq<Span>)
    requires w <= WORDS
    ensures forall r :: r in rs ==> w <= r.lo < r.hi <= WORDS
    decreases WORDS - w
  {
    if w == WORDS then []
    else if !Differs(a, b, w) then Runs(a, b, w + 1)
    else var e := RunEnd(a, b, w); [Span(w, e)] + Runs(a, b, e)
  }

  function PatchOf(id: PageId, before: Page, data: Page, r: Span): PagePatch
    requires r.lo < r.hi <= WORDS
  {
    Patch(id, r.lo * WORD, data[r.lo * WORD..r.hi * WORD], before[r.lo * WORD..r.hi * WORD])
  }

  function UndoOf(id: PageId, before: Page, r: Span): TS.UndoEntry
    requires r.lo < r.hi <= WORDS
  {
    TS.Undone(id, r.lo * WORD, before[r.lo * WORD..r.hi * WORD])
  }

  function Patches(id: PageId, before: Page, data: Page, rs: seq<Span>): (ps: seq<PagePatch>)
    requires forall r :: r in rs ==> r.lo < r.hi <= WORDS
    ensures |ps| == |rs|
  {
    if rs == [] then [] else Patches(id, before, data, rs[..|rs| - 1]) + [PatchOf(id, before, data, rs[|rs| - 1])]
  }

  function Undos(id: PageId, before: Page, rs: seq<Span>): (us: seq<TS.UndoEntry>)
    requires forall r :: r in rs ==> r.lo < r.hi <= WORDS
    ensures |us| == |rs|
  {
    if rs == [] then [] else Undos(id, before, rs[..|rs| - 1]) + [UndoOf(id, before, rs[|rs| - 1])]
  }

  predicate Ordered(rs: seq<Span>) {
    forall i, j :: 0 <= i < j < |rs| ==> rs[i].hi < rs[j].lo
  }

  /** The runs ascend, with at least one equal word between any two: the patches are disjoint. */
  lemma {:induction false} RunsOrdered(a: Page, b: Page, w: nat)
    requires w <= WORDS
    ensures Ordered(Runs(a, b, w))
    decreases WORDS - w
  {
    if w < WORDS {
      if !Differs(a, b, w) {
        RunsOrdered(a, b, w + 1);
        assert Runs(a, b, w) == Runs(a, b, w + 1);
      } else {
        var e := RunEnd(a, b, w);
        RunsOrdered(a, b, e);
        var rs, rest := Runs(a, b, w), Runs(a, b, e);
        assert e < WORDS ==> rest == Runs(a, b, e + 1);
        forall i, j | 0 <= i < j < |rs| ensures rs[i].hi < rs[j].lo {
          assert rs[j] == rest[j - 1] && rest[j - 1] in rest;
          if i > 0 {
            assert rs[i] == rest[i - 1];
            assert rest[i - 1].hi < rest[j - 1].lo;
          } else {
            assert rs[0] == Span(w, e);
          }
        }
      }
    }
  }

  /** One half of every patch written into a page, in order. */
  function PutAll(pg: Page, ps: seq<PagePatch>, undo: bool): Page {
    if ps == [] then pg
    else
      var p := ps[|ps| - 1];
      Overwrite(PutAll(pg, ps[..|ps| - 1], undo), p.off, if undo then p.before else p.after)
  }

  ghost predicate InSomeRun(rs: seq<Span>, k: nat) {
    exists r :: r in rs && r.lo * WORD <= k < r.hi * WORD
  }

  lemma {:induction false} PutOne(id: PageId, before: Page, data: Page, r: Span, pg: Page, undo: bool, k: nat)
    requires k < PAGE_SIZE && r.lo < r.hi <= WORDS
    ensures var p := PatchOf(id, before, data, r);
            Overwrite(pg, p.off, if undo then p.before else p.after)[k] ==
            if r.lo * WORD <= k < r.hi * WORD then (if undo then before[k] else data[k]) else pg[k]
  {
    var p := PatchOf(id, before, data, r);
    OverwriteByte(pg, p.off, if undo then p.before else p.after, k);
  }

  lemma {:induction false} PutByte(id: PageId, before: Page, data: Page, rs: seq<Span>, pg: Page, undo: bool, k: nat)
    requires k < PAGE_SIZE && SpansOk(rs)
    ensures PutAll(pg, Patches(id, before, data, rs), undo)[k] ==
            if InSomeRun(rs, k) then (if undo then before[k] else data[k]) else pg[k]
  {
    if rs != [] {
      var front, r := rs[..|rs| - 1], rs[|rs| - 1];
      PutByte(id, before, data, front, pg, undo, k);
      var ps := Patches(id, before, data, front);
      PutOne(id, before, data, r, PutAll(pg, ps, undo), undo, k);
      PutAllSnoc(pg, ps, PatchOf(id, before, data, r), undo);
      Split(rs);
    }
  }

  lemma {:induction false} PutAllSnoc(pg: Page, ps: seq<PagePatch>, p: PagePatch, undo: bool)
    ensures PutAll(pg, ps + [p], undo) == Overwrite(PutAll(pg, ps, undo), p.off, if undo then p.before else p.after)
  {
    assert (ps + [p])[..|ps|] == ps;
  }

  predicate SpansOk(spans: seq<Span>) {
    forall r :: r in spans ==> r.lo < r.hi <= WORDS
  }

  lemma {:induction false} DifferingByteCovered(a: Page, b: Page, w: nat, k: nat)
    requires w <= WORDS && w * WORD <= k < PAGE_SIZE
    ensures a[k] != b[k] ==> InSomeRun(Runs(a, b, w), k)
    decreases WORDS - w
  {
    if a[k] != b[k] {
      var word := k / WORD;
      assert a[word * WORD..word * WORD + WORD][k - word * WORD] != b[word * WORD..word * WORD + WORD][k - word * WORD];
      assert Differs(a, b, word);
      var rs := Runs(a, b, w);
      if !Differs(a, b, w) {
        DifferingByteCovered(a, b, w + 1, k);
      } else {
        var e := RunEnd(a, b, w);
        if word < e {
          assert rs[0] in rs && rs[0].lo * WORD <= k < rs[0].hi * WORD;
        } else {
          DifferingByteCovered(a, b, e, k);
          var r :| r in Runs(a, b, e) && r.lo * WORD <= k < r.hi * WORD;
          assert r in rs;
        }
      }
    }
  }

  /** The patches of a changed page are exact both ways: the after-bytes turn the old page into the new,
      the before-bytes the new page into the old. */
  lemma {:induction false} DiffBothWays(id: PageId, before: Page, data: Page)
    ensures var ps := Patches(id, before, data, Runs(before, data, 0));
            PutAll(before, ps, false) == data && PutAll(data, ps, true) == before
  {
    var rs := Runs(before, data, 0);
    var ps := Patches(id, before, data, rs);
    forall k | 0 <= k < PAGE_SIZE ensures PutAll(before, ps, false)[k] == data[k] && PutAll(data, ps, true)[k] == before[k] {
      PutByte(id, before, data, rs, before, false, k);
      PutByte(id, before, data, rs, data, true, k);
      DifferingByteCovered(before, data, 0, k);
    }
  }

  // ---- the pool ----

  function Clock(hand: nat, k: nat, n: nat): (i: nat)
    requires n > 0
    ensures i < n
  {
    (hand + k) % n
  }

  lemma {:induction false} ClockWraps(hand: nat, k: nat, n: nat)
    requires hand < n && k < 2 * n
    ensures Clock(hand, k, n) ==
            if hand + k < n then hand + k else if hand + k < 2 * n then hand + k - n else hand + k - 2 * n
    ensures forall i :: 0 <= i < n ==> (Turn(hand, i, n) == (if k < n then k else k - n) <==> i == Clock(hand, k, n))
  {
    var x := hand + k;
    if x < n {
      DivModUnique(x, n, 0, x);
    } else if x < 2 * n {
      DivModUnique(x, n, 1, x - n);
    } else {
      DivModUnique(x, n, 2, x - 2 * n);
    }
  }

  /** How many frames the clock passes before it first reaches frame i. */
  function Turn(hand: nat, i: nat, n: nat): nat
    requires i < n && hand <= n
  {
    if i >= hand then i - hand else i + n - hand
  }

  /** Frames that differ in their reference bits only, and not at all where they are pinned. */
  predicate SameButRef(a: seq<PageFrame>, b: seq<PageFrame>) {
    && |a| == |b|
    && forall i :: 0 <= i < |a| ==> a[i] == b[i].(ref := a[i].ref) && (b[i].pin > 0 ==> a[i] == b[i])
  }

  lemma {:induction false} ClearOne(a: seq<PageFrame>, b: seq<PageFrame>, i: nat)
    requires SameButRef(a, b) && i < |a| && a[i].pin == 0
    ensures SameButRef(a[i := a[i].(ref := false)], b)
  {
  }

  /** Free to be taken when the clock first comes by: not pinned, and empty or not used since the last sweep. */
  predicate Idle(f: PageFrame) {
    f.pin == 0 && !(f.valid && f.ref)
  }

  /** Second chance: the first idle frame from the hand on; without one, the first that is not pinned. */
  ghost predicate IsChoice(fs: seq<PageFrame>, hand: nat, i: nat)
    requires hand <= |fs|
  {
    && i < |fs| && fs[i].pin == 0
    && (forall j :: 0 <= j < |fs| && Idle(fs[j]) ==> Idle(fs[i]) && Turn(hand, i, |fs|) <= Turn(hand, j, |fs|))
    && (forall j :: 0 <= j < |fs| && fs[j].pin == 0 ==> Idle(fs[i]) || Turn(hand, i, |fs|) <= Turn(hand, j, |fs|))
  }

  /** After k turns of the clock: frames passed once were not idle and have lost their reference bit, frames passed
      twice are pinned, the others are as they were. */
  ghost predicate SweepState(fs0: seq<PageFrame>, fs: seq<PageFrame>, hand: nat, k: nat)
    requires |fs0| == |fs| && hand <= |fs|
  {
    && (forall i :: 0 <= i < |fs| && Turn(hand, i, |fs|) < k ==>
          !Idle(fs0[i]) && fs[i].pin == fs0[i].pin && (fs[i].pin > 0 || !(fs[i].valid && fs[i].ref)))
    && (forall i :: 0 <= i < |fs| && Turn(hand, i, |fs|) >= k ==> fs[i] == fs0[i])
    && (forall i :: 0 <= i < |fs| && Turn(hand, i, |fs|) + |fs| < k ==> fs[i].pin > 0)
  }

  lemma {:induction false} SweepOn(fs0: seq<PageFrame>, fs: seq<PageFrame>, fs': seq<PageFrame>, hand: nat, k: nat, idx: nat)
    requires |fs0| == |fs| && hand < |fs| && k < 2 * |fs| && idx == Clock(hand, k, |fs|) && SweepState(fs0, fs, hand, k)
    requires if fs[idx].pin == 0 then fs[idx].valid && fs[idx].ref && fs' == fs[idx := fs[idx].(ref := false)]
             else fs' == fs
    ensures SweepState(fs0, fs', hand, k + 1)
  {
    ClockWraps(hand, k, |fs|);
  }

  lemma {:induction false} SweepFinds(fs0: seq<PageFrame>, fs: seq<PageFrame>, hand: nat, k: nat, idx: nat)
    requires |fs0| == |fs| && hand < |fs| && k < 2 * |fs| && idx == Clock(hand, k, |fs|) && SweepState(fs0, fs, hand, k)
    requires fs[idx].pin == 0 && !(fs[idx].valid && fs[idx].ref)
    ensures IsChoice(fs0, hand, idx)
  {
    ClockWraps(hand, k, |fs|);
  }

  /** No pinned frame changed. */
  predicate PinnedStay(a: seq<PageFrame>, b: seq<PageFrame>) {
    |a| == |b| && forall i :: 0 <= i < |a| && a[i].pin > 0 ==> b[i] == a[i]
  }

  /** The same pages with the same contents; only dirty flags may differ. */
  predicate SameContents(a: map<PageId, TS.Frame>, b: map<PageId, TS.Frame>) {
    a.Keys == b.Keys && forall id :: id in a ==> a[id].data == b[id].data && a[id].base == b[id].base
  }

  /** A page may leave the pool when it has no change that is not in the log, or none to write. */
  predicate CanGo(gone: Option<PageId>, cached: map<PageId, TS.Frame>) {
    gone.Some? ==> gone.value in cached && (cached[gone.value].dirty ==> cached[gone.value].data == cached[gone.value].base)
  }

  function Without(gone: Option<PageId>, cached: map<PageId, TS.Frame>): map<PageId, TS.Frame> {
    if gone.Some? then cached - {gone.value} else cached
  }

  function Written(gone: Option<PageId>, cached: map<PageId, TS.Frame>, files: Files): Files {
    if gone.Some? && gone.value in cached && cached[gone.value].dirty
    then WritePage(files, gone.value, cached[gone.value].data)
    else files
  }

  function Records(txn: nat, ps: seq<PagePatch>): (rs: seq<Rec>)
    ensures |rs| == |ps|
  {
    if ps == [] then [] else Records(txn, ps[..|ps| - 1]) + [PatchRec(txn, ps[|ps| - 1])]
  }

  /** A change that may not be written, since it is not in the log: evicting the frame stops the process. */
  predicate Unsaved(f: PageFrame) {
    f.valid && f.dirty && f.data != f.before
  }

  /** The clock's choice is such a frame. */
  ghost predicate Blocked(fs: seq<PageFrame>, hand: nat)
    requires hand <= |fs|
  {
    exists i: nat :: IsChoice(fs, hand, i) && Unsaved(fs[i])
  }

  lemma {:induction false} ChoiceBlocks(fs: seq<PageFrame>, hand: nat, i: nat)
    requires hand <= |fs| && IsChoice(fs, hand, i)
    ensures Blocked(fs, hand) <==> Unsaved(fs[i])
  {
    forall j: nat | IsChoice(fs, hand, j) ensures i == j {
      assert Turn(hand, i, |fs|) == Turn(hand, j, |fs|);
    }
  }

  /** Flushing does not touch a frame whose change has not been logged. */
  ghost predicate UnloggedStay(a: map<PageId, TS.Frame>, b: map<PageId, TS.Frame>) {
    forall id :: id in a && a[id].data != a[id].base ==> id in b && b[id] == a[id]
  }

  lemma {:induction false} StillUnlogged(a: map<PageId, TS.Frame>, b: map<PageId, TS.Frame>)
    requires SameContents(b, a) && UnloggedStay(a, b) && SomeUnlogged(b)
    ensures SomeUnlogged(a)
  {
    var id :| id in b && b[id].dirty && b[id].data != b[id].base;
    assert id in a && a[id].data != a[id].base;
  }

  /** A page of the file has a change that is not in the log. */
  ghost predicate FileUnlogged(cached: map<PageId, TS.Frame>, fid: nat) {
    exists id :: id in cached && id.fid == fid && cached[id].dirty && cached[id].data != cached[id].base
  }

  /** The frames of other files. */
  function OtherFiles(cached: map<PageId, TS.Frame>, fid: nat): map<PageId, TS.Frame> {
    map id | id in cached && id.fid != fid :: cached[id]
  }

  /** How a page that is not cached is answered: no frame when all are pinned, a stop when the clock's choice holds
      a change that is not in the log, a damaged page when it fails its check, and otherwise a frame. */
  ghost predicate Answers(r: Pinned, fs: seq<PageFrame>, hand: nat, good: bool)
    requires hand <= |fs|
  {
    && (r.NoFrame? <==> forall i :: 0 <= i < |fs| ==> fs[i].pin > 0)
    && (r.UnloggedChange? <==> Blocked(fs, hand))
    && (r.Corrupt? ==> !good) && (r.Frame? ==> good)
  }

  /** A page that leaves the pool is no other page. */
  lemma {:induction false} WrittenElsewhere(gone: Option<PageId>, cached: map<PageId, TS.Frame>, files: Files, id: PageId)
    requires CanGo(gone, cached) && id !in cached
    ensures At(Written(gone, cached, files), id) == At(files, id)
  {
  }

  ghost predicate SomeUnlogged(cached: map<PageId, TS.Frame>) {
    exists id :: id in cached && cached[id].dirty && cached[id].data != cached[id].base
  }

  /** Pages of the file have gone, none of them with a change that is not in the log; nothing else has changed. */
  ghost predicate SomeDropped(was: map<PageId, TS.Frame>, now: map<PageId, TS.Frame>, fid: nat) {
    && (forall id :: id in now ==> id in was && now[id] == was[id])
    && (forall id :: id in was && id !in now ==> id.fid == fid && (was[id].dirty ==> was[id].data == was[id].base))
  }

  lemma {:induction false} OneDropped(was: map<PageId, TS.Frame>, now: map<PageId, TS.Frame>, fid: nat, id: PageId)
    requires SomeDropped(was, now, fid) && id in now && id.fid == fid
    ensures if now[id].dirty ==> now[id].data == now[id].base then SomeDropped(was, now - {id}, fid) else FileUnlogged(was, fid)
  {
  }

  lemma {:induction false} AllDropped(was: map<PageId, TS.Frame>, now: map<PageId, TS.Frame>, fid: nat)
    requires SomeDropped(was, now, fid) && forall id :: id in now ==> id.fid != fid
    ensures now == OtherFiles(was, fid) && !FileUnlogged(was, fid)
  {
  }

  class TxnContext {
    const id: u64
    var wrote: bool
    var undo: seq<TS.UndoEntry>
    var tailUndo: seq<TailUndo>
    var drops: seq<nat>

    constructor (id: u64)
      ensures this.id == id && !wrote && undo == [] && tailUndo == [] && drops == []
    {
      this.id := id;
      wrote, undo, tailUndo, drops := false, [], [], [];
    }
  }

  /** Value of the tail-page table before a write to it; None where there was no entry. */
  datatype TailUndo = TailUndo(fid: nat, tail: Option<nat>)

  datatype Evicted = Victim(idx: nat) | AllPinned | Unlogged

  datatype Pinned = Frame(idx: nat) | NoFrame | Corrupt | UnloggedChange

  class Pool {
    const frames: array<PageFrame>
    var table: map<PageId, nat>
    var hand: nat

    /** Page table and valid frames are in bijection. */
    ghost predicate Valid()
      reads this, frames
    {
      && (hand < frames.Length || hand == frames.Length == 0)
      && (forall id :: id in table ==>
            table[id] < frames.Length && frames[table[id]].valid && frames[table[id]].page == id)
      && (forall i :: 0 <= i < frames.Length && frames[i].valid ==>
            frames[i].page in table && table[frames[i].page] == i)
    }

    /** The cached pages as the step system sees them. */
    ghost function Cached(): map<PageId, TS.Frame>
      reads this, frames
      requires Valid()
    {
      map id | id in table :: TS.Frame(frames[table[id]].data, frames[table[id]].before, frames[table[id]].dirty)
    }

    constructor (capacity: nat)
      ensures Valid() && fresh(frames) && frames.Length == capacity && table == map[] && Cached() == map[]
      ensures forall i :: 0 <= i < capacity ==> frames[i].pin == 0
    {
      frames := new PageFrame[capacity](_ => EmptyFrame());
      table, hand := map[], 0;
    }

    /** Write a dirty page to its file; false stands for the stop on a change that is not in the log. */
    method WriteBack(i: nat, fm: FileManager) returns (ok: bool)
      requires Valid() && i < frames.Length
      modifies frames, fm
      ensures Valid()
      ensures ok == (frames[i].valid && old(frames[i].dirty) ==> frames[i].before == frames[i].data)
      ensures ok && frames[i].valid && old(frames[i].dirty) ==>
                && frames[..] == old(frames[..])[i := old(frames[i]).(dirty := false)]
                && fm.files == WritePage(old(fm.files), frames[i].page, frames[i].data)
                && Cached() == old(Cached())[frames[i].page := old(Cached())[frames[i].page].(dirty := false)]
      ensures !(ok && frames[i].valid && old(frames[i].dirty)) ==>
                frames[..] == old(frames[..]) && fm.files == old(fm.files) && Cached() == old(Cached())
    {
      var f := frames[i];
      if !f.valid || !f.dirty { return true; }
      if f.before != f.data { return false; }
      fm.WritePageAt(f.page, f.data);
      frames[i] := f.(dirty := false);
      ok := true;
    }

    method Forget(i: nat)
      requires Valid() && i < frames.Length && frames[i].valid
      modifies this`table, frames
      ensures Valid() && table == old(table) - {old(frames[i].page)}
      ensures !frames[i].valid && frames[..] == old(frames[..])[i := frames[i]]
      ensures Cached() == old(Cached()) - {old(frames[i].page)}
    {
      table := table - {frames[i].page};
      frames[i] := frames[i].(valid := false);
    }

    method ClearRef(i: nat)
      requires Valid() && i < frames.Length
      modifies frames
      ensures Valid() && Cached() == old(Cached())
      ensures frames[..] == old(frames[..])[i := old(frames[i]).(ref := false)]
    {
      frames[i] := frames[i].(ref := false);
    }

    /** Write the frame's page back if it is dirty and take it out of the page table. */
    method Take(i: nat, fm: FileManager) returns (ok: bool, ghost gone: Option<PageId>)
      requires Valid() && i < frames.Length
      modifies this`table, frames, fm
      ensures Valid() && table == if gone.Some? then old(table) - {gone.value} else old(table)
      ensures ok == (old(frames[i]).valid && old(frames[i]).dirty ==> old(frames[i]).data == old(frames[i]).before)
      ensures gone == if ok && old(frames[i]).valid then Some(old(frames[i]).page) else None
      ensures CanGo(gone, old(Cached()))
      ensures Cached() == Without(gone, old(Cached())) && fm.files == Written(gone, old(Cached()), old(fm.files))
      ensures if ok then !frames[i].valid && frames[..] == old(frames[..])[i := frames[i]] else frames[..] == old(frames[..])
    {
      var f := frames[i];
      gone := None;
      assert f.valid ==> f.page in Cached();
      ghost var cached := Cached();
      ok := WriteBack(i, fm);
      if !ok || !f.valid { return; }
      gone := Some(f.page);
      assert Cached() - {f.page} == cached - {f.page};
      Forget(i);
    }

    /** The clock's choice, at most two sweeps: the first clears reference bits, the second takes. It finds
        nothing only when every frame is pinned. */
    method Sweep() returns (victim: Option<nat>)
      requires Valid()
      modifies frames
      ensures Valid() && Cached() == old(Cached())
      ensures SameButRef(frames[..], old(frames[..]))
      ensures victim.Some? ==> IsChoice(old(frames[..]), hand, victim.value)
      ensures victim.None? ==> forall i :: 0 <= i < frames.Length ==> frames[i].pin > 0
    {
      var n := frames.Length;
      for k := 0 to 2 * n
        invariant Valid() && Cached() == old(Cached())
        invariant SameButRef(frames[..], old(frames[..]))
        invariant SweepState(old(frames[..]), frames[..], hand, k)
      {
        victim := PassBy(k, old(frames[..]));
        if victim.Some? { return; }
      }
      victim := None;
    }

    /** One turn of the clock: take the frame, or give it its second chance. */
    method PassBy(k: nat, ghost fs0: seq<PageFrame>) returns (victim: Option<nat>)
      requires Valid() && k < 2 * frames.Length && SameButRef(frames[..], fs0) && SweepState(fs0, frames[..], hand, k)
      modifies frames
      ensures Valid() && Cached() == old(Cached()) && SameButRef(frames[..], fs0)
      ensures if victim.Some? then IsChoice(fs0, hand, victim.value) else SweepState(fs0, frames[..], hand, k + 1)
    {
      var n := frames.Length;
      var idx := Clock(hand, k, n);
      ClockWraps(hand, k, n);
      var f := frames[idx];
      ghost var now := frames[..];
      if f.pin == 0 {
        if !f.valid || !f.ref {
          SweepFinds(fs0, now, hand, k, idx);
          return Some(idx);
        }
        ClearRef(idx);
        ClearOne(now, fs0, idx);
      }
      SweepOn(fs0, now, frames[..], hand, k, idx);
      victim := None;
    }

    /** The hand moves on past the victim. */
    method SetHand(idx: nat)
      requires Valid() && idx < frames.Length
      modifies this`hand
      ensures Valid() && Cached() == old(Cached()) && hand == Clock(idx, 1, frames.Length)
    {
      hand := Clock(idx, 1, frames.Length);
    }

    /** Give up a frame by clock replacement; `gone` is the page it held. A pinned frame is never touched. */
    method Evict(fm: FileManager) returns (r: Evicted, ghost gone: Option<PageId>)
      requires Valid()
      modifies this`table, this`hand, frames, fm
      ensures Valid()
      ensures r.AllPinned? <==> forall i :: 0 <= i < frames.Length ==> old(frames[i].pin) > 0
      ensures PinnedStay(old(frames[..]), frames[..])
      ensures !r.Victim? ==> gone.None? && hand == old(hand)
      ensures r.Victim? ==> IsChoice(old(frames[..]), old(hand), r.idx) && !frames[r.idx].valid
      ensures r.Victim? ==> hand == Clock(r.idx, 1, frames.Length)
      ensures r.Unlogged? <==> Blocked(old(frames[..]), old(hand))
      ensures table.Keys <= old(table).Keys
      ensures CanGo(gone, old(Cached()))
      ensures Cached() == Without(gone, old(Cached())) && fm.files == Written(gone, old(Cached()), old(fm.files))
    {
      var victim := Sweep();
      if victim.None? { return AllPinned, None; }
      var idx := victim.value;
      ChoiceBlocks(old(frames[..]), old(hand), idx);
      var ok;
      ok, gone := Take(idx, fm);
      if ok {
        SetHand(idx);
      }
      r := if ok then Victim(idx) else Unlogged;
    }

    /** Put a page into an empty frame and pin it. */
    method Install(i: nat, f: PageFrame)
      requires Valid() && i < frames.Length && !frames[i].valid
      requires f.valid && f.page !in table
      modifies this`table, frames
      ensures Valid()
      ensures frames[..] == old(frames[..])[i := f]
      ensures Cached() == old(Cached())[f.page := TS.Frame(f.data, f.before, f.dirty)]
      ensures table == old(table)[f.page := i]
    {
      frames[i] := f;
      table := table[f.page := i];
    }

    /** Change the bookkeeping bits of a valid frame. */
    method SetBits(i: nat, ref: bool, pin: nat)
      requires Valid() && i < frames.Length && frames[i].valid
      modifies frames
      ensures Valid() && Cached() == old(Cached())
      ensures frames[..] == old(frames[..])[i := old(frames[i]).(ref := ref, pin := pin)]
    {
      frames[i] := frames[i].(ref := ref, pin := pin);
    }

    /** Read and pin a page. A hit returns the cached frame as it is; a miss evicts, loads and checks the
        page, and a page that fails the check does not stay in the pool. */
    method Read(id: PageId, check: Page -> bool, fm: FileManager) returns (r: Pinned, ghost gone: Option<PageId>)
      requires Valid()
      modifies this`table, this`hand, frames, fm
      ensures Valid() && CanGo(gone, old(Cached()))
      ensures r.Frame? ==> id in table && table[id] == r.idx && frames[r.idx].pin > 0
      ensures id in old(table) ==> r == Frame(old(table)[id]) && fm.files == old(fm.files) && Cached() == old(Cached())
                                   && frames[..] == old(frames[..])[r.idx := old(frames[r.idx]).(ref := true, pin := old(frames[r.idx].pin) + 1)]
      ensures id !in old(table) ==>
                && Answers(r, old(frames[..]), old(hand), check(At(old(fm.files), id)))
                && At(fm.files, id) == At(old(fm.files), id)
                && PinnedStay(old(frames[..]), frames[..])
                && fm.files == Written(gone, old(Cached()), old(fm.files))
                && Cached() == (if r.Frame? then Without(gone, old(Cached()))[id := TS.Frame(At(fm.files, id), At(fm.files, id), false)]
                                else Without(gone, old(Cached())))
    {
      gone := None;
      if id in table {
        var idx := table[id];
        SetBits(idx, true, frames[idx].pin + 1);
        return Frame(idx), None;
      }
      r, gone := ReadMiss(id, check, fm);
    }

    method ReadMiss(id: PageId, check: Page -> bool, fm: FileManager) returns (r: Pinned, ghost gone: Option<PageId>)
      requires Valid() && id !in table
      modifies this`table, this`hand, frames, fm
      ensures Valid() && CanGo(gone, old(Cached())) && PinnedStay(old(frames[..]), frames[..])
      ensures r.Frame? ==> id in table && table[id] == r.idx && frames[r.idx].pin == 1
      ensures Answers(r, old(frames[..]), old(hand), check(At(old(fm.files), id)))
      ensures At(fm.files, id) == At(old(fm.files), id)
      ensures fm.files == Written(gone, old(Cached()), old(fm.files))
      ensures Cached() == if r.Frame? then Without(gone, old(Cached()))[id := TS.Frame(At(fm.files, id), At(fm.files, id), false)]
                          else Without(gone, old(Cached()))
    {
      var e;
      e, gone := Evict(fm);
      WrittenElsewhere(gone, old(Cached()), old(fm.files), id);
      if e.AllPinned? { return NoFrame, gone; }
      if e.Unlogged? { return UnloggedChange, gone; }
      r := Load(e.idx, id, check, fm);
    }

    /** Fill an empty frame from the file. */
    method Load(i: nat, id: PageId, check: Page -> bool, fm: FileManager) returns (r: Pinned)
      requires Valid() && id !in table && i < frames.Length && !frames[i].valid
      modifies this`table, frames
      ensures Valid() && r == if check(At(fm.files, id)) then Frame(i) else Corrupt
      ensures frames[..] == old(frames[..])[i := frames[i]] && (r.Frame? ==> id in table && table[id] == i && frames[i].pin == 1)
      ensures Cached() == if r.Frame? then old(Cached())[id := TS.Frame(At(fm.files, id), At(fm.files, id), false)] else old(Cached())
    {
      var data := fm.ReadPage(id);
      if check(data) {
        Install(i, PageFrame(id, true, false, true, 1, data, data));
        r := Frame(i);
      } else {
        Blank(i);
        r := Corrupt;
      }
    }

    method Blank(i: nat)
      requires Valid() && i < frames.Length && !frames[i].valid
      modifies frames
      ensures Valid() && Cached() == old(Cached()) && frames[..] == old(frames[..])[i := EmptyFrame()]
    {
      frames[i] := EmptyFrame();
    }

    /** A frame for a page that does not exist yet: zeroed, dirty, pinned. A page already in the pool is only
        pinned. */
    method Allocate(id: PageId, fm: FileManager) returns (r: Pinned, ghost gone: Option<PageId>)
      requires Valid()
      modifies this`table, this`hand, frames, fm
      ensures Valid() && !r.Corrupt? && CanGo(gone, old(Cached()))
      ensures r.Frame? ==> id in table && table[id] == r.idx && frames[r.idx].pin > 0
      ensures id in old(table) ==> r == Frame(old(table)[id]) && fm.files == old(fm.files) && Cached() == old(Cached())
      ensures id !in old(table) ==>
                && Answers(r, old(frames[..]), old(hand), true)
                && PinnedStay(old(frames[..]), frames[..])
                && fm.files == Written(gone, old(Cached()), old(fm.files))
                && Cached() == (if r.Frame? then Without(gone, old(Cached()))[id := TS.Frame(ZeroPage(), ZeroPage(), true)]
                                else Without(gone, old(Cached())))
    {
      gone := None;
      if id in table {
        var idx := table[id];
        SetBits(idx, frames[idx].ref, frames[idx].pin + 1);
        return Frame(idx), None;
      }
      var e;
      e, gone := Evict(fm);
      if e.AllPinned? { return NoFrame, gone; }
      if e.Unlogged? { return UnloggedChange, gone; }
      Install(e.idx, PageFrame(id, true, true, true, 1, ZeroPage(), ZeroPage()));
      r := Frame(e.idx);
    }

    method Unpin(i: nat)
      requires Valid() && i < frames.Length && frames[i].valid
      modifies frames
      ensures Valid() && Cached() == old(Cached())
      ensures frames[..] == old(frames[..])[i := old(frames[i]).(pin := if old(frames[i].pin) > 0 then old(frames[i].pin) - 1 else 0)]
    {
      if frames[i].pin > 0 {
        SetBits(i, frames[i].ref, frames[i].pin - 1);
      } else {
        assert old(frames[..]) == frames[..];
      }
    }

    /** What the holder of a pinned page does through its pointer. */
    method Change(i: nat, pg: Page)
      requires Valid() && i < frames.Length && frames[i].valid && frames[i].pin > 0
      modifies frames
      ensures Valid()
      ensures Cached() == old(Cached())[frames[i].page := old(Cached())[frames[i].page].(data := pg)]
      ensures frames[..] == old(frames[..])[i := old(frames[i]).(data := pg)]
    {
      frames[i] := frames[i].(data := pg);
    }

    /** Put undo bytes back: into the frame and its baseline when the page is cached, into the file
        otherwise. Nothing is logged. */
    method RestoreRegion(u: TS.UndoEntry, fm: FileManager)
      requires Valid()
      modifies frames, fm
      ensures Valid()
      ensures u.page in table ==>
                Cached() == old(Cached())[u.page := TS.Restored(old(Cached())[u.page], u)] && fm.files == old(fm.files)
      ensures u.page !in table ==>
                && Cached() == old(Cached())
                && fm.files == WritePage(old(fm.files), u.page, Overwrite(At(old(fm.files), u.page), u.off, u.bytes))
    {
      if u.page !in table {
        var pg := fm.ReadPage(u.page);
        fm.WritePageAt(u.page, Overwrite(pg, u.off, u.bytes));
        return;
      }
      var i := table[u.page];
      var f := frames[i];
      frames[i] := f.(data := Overwrite(f.data, u.off, u.bytes), before := Overwrite(f.before, u.off, u.bytes),
                      dirty := true);
    }

    method SetDirty(i: nat)
      requires Valid() && i < frames.Length && frames[i].valid
      modifies frames
      ensures Valid()
      ensures Cached() == old(Cached())[frames[i].page := old(Cached())[frames[i].page].(dirty := true)]
      ensures frames[..] == old(frames[..])[i := old(frames[i]).(dirty := true)]
    {
      frames[i] := frames[i].(dirty := true);
    }

    /** Write every dirty page; stops at the first one with a change that is not in the log. `steps` is what
        this does to any step-system state with the same frames and files. */
    method FlushAll(fm: FileManager, ghost s: TS.State) returns (ok: bool, ghost steps: seq<TS.Step>)
      requires Valid() && s.frames == Cached() && s.files == fm.files
      modifies frames, fm
      ensures Valid()
      ensures TS.CanRun(s, steps) && TS.Run(s, steps) == s.(frames := Cached(), files := fm.files)
      ensures ok ==> forall id :: id in Cached() ==> !Cached()[id].dirty
      ensures SameContents(Cached(), old(Cached())) && (ok <==> !SomeUnlogged(old(Cached())))
    {
      steps := [];
      for i := 0 to frames.Length
        invariant Valid() && table == old(table)
        invariant TS.CanRun(s, steps) && TS.Run(s, steps) == s.(frames := Cached(), files := fm.files)
        invariant forall j :: 0 <= j < i && frames[j].valid ==> !frames[j].dirty
        invariant SameContents(Cached(), old(Cached())) && UnloggedStay(old(Cached()), Cached())
      {
        ok, steps := FlushFrame(i, fm, s, steps);
        if !ok {
          StillUnlogged(old(Cached()), Cached());
          return;
        }
      }
      ok := true;
    }

    method FlushFrame(i: nat, fm: FileManager, ghost s: TS.State, ghost before: seq<TS.Step>)
      returns (ok: bool, ghost steps: seq<TS.Step>)
      requires Valid() && i < frames.Length
      requires TS.CanRun(s, before) && TS.Run(s, before) == s.(frames := Cached(), files := fm.files)
      modifies frames, fm
      ensures Valid()
      ensures TS.CanRun(s, steps) && TS.Run(s, steps) == s.(frames := Cached(), files := fm.files)
      ensures SameContents(Cached(), old(Cached()))
      ensures ok ==> (frames[i].valid ==> !frames[i].dirty)
                     && forall j :: 0 <= j < frames.Length && j != i ==> frames[j] == old(frames[j])
      ensures UnloggedStay(old(Cached()), Cached()) && (!ok ==> SomeUnlogged(Cached()))
    {
      var f := frames[i];
      steps := before;
      assert f.valid ==> f.page in Cached() && Cached()[f.page] == TS.Frame(f.data, f.before, f.dirty);
      ok := WriteBack(i, fm);
      if ok && f.valid && f.dirty {
        TS.RunSnoc(s, before, TS.Flush(f.page));
        steps := before + [TS.Flush(f.page)];
      }
    }

    /** Write back and forget every frame of one file. */
    method DropTable(fid: nat, fm: FileManager, ghost s: TS.State) returns (ok: bool, ghost steps: seq<TS.Step>)
      requires Valid() && s.frames == Cached() && s.files == fm.files
      modifies this`table, frames, fm
      ensures Valid() && table.Keys <= old(table).Keys
      ensures TS.CanRun(s, steps) && TS.Run(s, steps) == s.(frames := Cached(), files := fm.files)
      ensures ok <==> !FileUnlogged(old(Cached()), fid)
      ensures ok ==> Cached() == OtherFiles(old(Cached()), fid)
    {
      steps := [];
      while exists id :: id in table && id.fid == fid
        invariant Valid() && table.Keys <= old(table).Keys
        invariant TS.CanRun(s, steps) && TS.Run(s, steps) == s.(frames := Cached(), files := fm.files)
        invariant SomeDropped(old(Cached()), Cached(), fid)
        decreases table.Keys
      {
        var id :| id in table && id.fid == fid;
        OneDropped(old(Cached()), Cached(), fid, id);
        ok, steps := DropPage(id, fm, s, steps);
        if !ok { return; }
      }
      AllDropped(old(Cached()), Cached(), fid);
      ok := true;
    }

    method DropPage(id: PageId, fm: FileManager, ghost s: TS.State, ghost before: seq<TS.Step>)
      returns (ok: bool, ghost steps: seq<TS.Step>)
      requires Valid() && id in table
      requires TS.CanRun(s, before) && TS.Run(s, before) == s.(frames := Cached(), files := fm.files)
      modifies this`table, frames, fm
      ensures Valid() && table == if ok then old(table) - {id} else old(table)
      ensures TS.CanRun(s, steps) && TS.Run(s, steps) == s.(frames := Cached(), files := fm.files)
      ensures ok == (old(Cached())[id].dirty ==> old(Cached())[id].data == old(Cached())[id].base)
      ensures Cached() == if ok then old(Cached()) - {id} else old(Cached())
    {
      ghost var now, f := Cached(), frames[table[id]];
      assert now[id] == TS.Frame(f.data, f.before, f.dirty);
      steps := before;
      ghost var gone;
      ok, gone := Take(table[id], fm);
      if ok {
        assert Cached() == now - {id};
        TS.RunSnoc(s, before, TS.Evict(id));
        steps := before + [TS.Evict(id)];
      }
    }

    /** The baseline moves on to the current content. */
    method Rebase(i: nat)
      requires Valid() && i < frames.Length && frames[i].valid
      modifies frames
      ensures Valid()
      ensures Cached() == old(Cached())[frames[i].page := old(Cached())[frames[i].page].(base := frames[i].data)]
      ensures frames[..] == old(frames[..])[i := old(frames[i]).(before := old(frames[i]).data)]
    {
      frames[i] := frames[i].(before := frames[i].data);
    }

    /** Log the difference between the frame and its baseline, one patch record for each maximal run of
        differing words, and move the baseline up. */
    method LogPageDiff(i: nat, wal: WalFile, txn: TxnContext)
      requires Valid() && wal.Valid() && i < frames.Length && frames[i].valid
      requires 0 < frames[i].page.fid < U64 && frames[i].page.no < U32
      modifies frames, wal, txn`wrote, txn`undo
      ensures Valid() && wal.Valid() && wal.nextTxn == old(wal.nextTxn)
      ensures frames[..] == old(frames[..])[i := old(frames[i]).(before := old(frames[i]).data)]
      ensures Cached() == old(Cached())[frames[i].page := old(Cached())[frames[i].page].(base := frames[i].data)]
      ensures var f := old(frames[i]);
              var rs := Runs(f.before, f.data, 0);
              && wal.log == old(wal.log) + Records(txn.id, Patches(f.page, f.before, f.data, rs))
              && txn.undo == old(txn.undo) + Undos(f.page, f.before, rs)
              && txn.wrote == (old(txn.wrote) || rs != [])
    {
      LogDiff(frames[i], wal, txn);
      Rebase(i);
    }

    method MarkDirty(i: nat, wal: WalFile, txn: TxnContext)
      requires Valid() && wal.Valid() && i < frames.Length && frames[i].valid
      requires 0 < frames[i].page.fid < U64 && frames[i].page.no < U32
      modifies frames, wal, txn`wrote, txn`undo
      ensures Valid() && wal.Valid() && wal.nextTxn == old(wal.nextTxn)
      ensures frames[..] == old(frames[..])[i := old(frames[i]).(before := old(frames[i]).data, dirty := true)]
      ensures var f := old(frames[i]);
              var rs := Runs(f.before, f.data, 0);
              && Cached() == old(Cached())[f.page := TS.Frame(f.data, f.data, true)]
              && wal.log == old(wal.log) + Records(txn.id, Patches(f.page, f.before, f.data, rs))
              && txn.undo == old(txn.undo) + Undos(f.page, f.before, rs)
              && txn.wrote == (old(txn.wrote) || rs != [])
    {
      ghost var f, cached := frames[i], Cached();
      assert f.page in cached;
      LogPageDiff(i, wal, txn);
      SetDirty(i);
      assert Cached() == cached[f.page := TS.Frame(f.data, f.data, true)];
    }
  }

  /** Where a frame is free and every change of a dirty page has been logged, a good page gets its frame. */
  lemma {:induction false} FrameWhenLogged(pool: Pool, r: Pinned, good: bool)
    requires pool.Valid() && Answers(r, pool.frames[..], pool.hand, good)
    requires exists i :: 0 <= i < pool.frames.Length && pool.frames[i].pin == 0
    ensures !SomeUnlogged(pool.Cached()) && good ==> r.Frame?
  {
    if r.UnloggedChange? {
      var i: nat :| IsChoice(pool.frames[..], pool.hand, i) && Unsaved(pool.frames[..][i]);
      assert pool.frames[i].page in pool.Cached();
    }
  }

  method LogDiff(f: PageFrame, wal: WalFile, txn: TxnContext)
    requires wal.Valid() && 0 < f.page.fid < U64 && f.page.no < U32
    modifies wal, txn`wrote, txn`undo
    ensures wal.Valid() && wal.nextTxn == old(wal.nextTxn)
    ensures var rs := Runs(f.before, f.data, 0);
            && wal.log == old(wal.log) + Records(txn.id, Patches(f.page, f.before, f.data, rs))
            && txn.undo == old(txn.undo) + Undos(f.page, f.before, rs)
            && txn.wrote == (old(txn.wrote) || rs != [])
  {
    ghost var spans: seq<Span> := [];
    assert wal.log + [] == wal.log && txn.undo + [] == txn.undo;
    var w := 0;
    while w < WORDS
      invariant w <= WORDS && wal.Valid() && wal.nextTxn == old(wal.nextTxn)
      invariant SpansOk(spans) && spans + Runs(f.before, f.data, w) == Runs(f.before, f.data, 0)
      invariant Logged(f, spans, txn.id, old(wal.log), wal.log, old(txn.undo), txn.undo)
      invariant txn.wrote == (old(txn.wrote) || spans != [])
      decreases WORDS - w
    {
      if !Differs(f.before, f.data, w) {
        assert Runs(f.before, f.data, w) == Runs(f.before, f.data, w + 1);
        w := w + 1;
        continue;
      }
      w, spans := LogRun(f, w, wal, txn, spans, old(wal.log), old(txn.undo));
    }
    Reassoc(spans, Span(0, 0), []);
  }

  /** Log the run that starts at a differing word. */
  method LogRun(f: PageFrame, lo: nat, wal: WalFile, txn: TxnContext, ghost spans: seq<Span>, ghost log0: seq<Rec>,
                ghost undo0: seq<TS.UndoEntry>)
    returns (w: nat, ghost more: seq<Span>)
    requires wal.Valid() && 0 < f.page.fid < U64 && f.page.no < U32
    requires lo < WORDS && Differs(f.before, f.data, lo)
    requires SpansOk(spans) && Logged(f, spans, txn.id, log0, wal.log, undo0, txn.undo)
    modifies wal, txn`wrote, txn`undo
    ensures wal.Valid() && wal.nextTxn == old(wal.nextTxn) && txn.wrote && lo < w <= WORDS
    ensures more != [] && SpansOk(more) && more + Runs(f.before, f.data, w) == spans + Runs(f.before, f.data, lo)
    ensures Logged(f, more, txn.id, log0, wal.log, undo0, txn.undo)
  {
    var hi;
    hi, w := FindRunEnd(f, lo);
    ghost var log, undo := wal.log, txn.undo;
    EmitPatch(f, Span(lo, hi), wal, txn);
    Reassoc(spans, Span(lo, hi), Runs(f.before, f.data, w));
    LoggedSnoc(f, spans, Span(lo, hi), txn.id, log0, log, undo0, undo);
    more := spans + [Span(lo, hi)];
  }

  /** The records and undo entries of these spans have been appended. */
  ghost predicate Logged(f: PageFrame, spans: seq<Span>, txn: nat, log0: seq<Rec>, log: seq<Rec>,
                         undo0: seq<TS.UndoEntry>, undo: seq<TS.UndoEntry>)
    requires SpansOk(spans)
  {
    && log == log0 + Records(txn, Patches(f.page, f.before, f.data, spans))
    && undo == undo0 + Undos(f.page, f.before, spans)
  }

  lemma {:induction false} LoggedSnoc(f: PageFrame, spans: seq<Span>, span: Span, txn: nat, log0: seq<Rec>, log: seq<Rec>,
                   undo0: seq<TS.UndoEntry>, undo: seq<TS.UndoEntry>)
    requires SpansOk(spans) && span.lo < span.hi <= WORDS
    requires Logged(f, spans, txn, log0, log, undo0, undo)
    ensures SpansOk(spans + [span])
    ensures Logged(f, spans + [span], txn, log0, log + [PatchRec(txn, PatchOf(f.page, f.before, f.data, span))],
                   undo0, undo + [UndoOf(f.page, f.before, span)])
  {
    PatchesSnoc(f, spans, span, txn, log0, undo0);
  }

  lemma {:induction false} Reassoc(a: seq<Span>, x: Span, b: seq<Span>)
    ensures a + ([x] + b) == (a + [x]) + b && a + [] == a
  {
  }

  /** The inner loop of the difference: it looks one word past the run to absorb a gap, but a gap of one
      word already ends it. */
  method FindRunEnd(f: PageFrame, lo: nat) returns (hi: nat, w: nat)
    requires lo < WORDS && Differs(f.before, f.data, lo)
    ensures lo < hi <= w <= WORDS && hi == RunEnd(f.before, f.data, lo)
    ensures Runs(f.before, f.data, lo) == [Span(lo, hi)] + Runs(f.before, f.data, w)
  {
    hi := lo + 1;
    w := lo + 1;
    while w < WORDS && w <= hi
      invariant lo < hi <= WORDS
      invariant forall k :: lo <= k < hi ==> Differs(f.before, f.data, k)
      invariant w == hi || (w == hi + 1 && hi < WORDS && !Differs(f.before, f.data, hi))
      decreases WORDS - w
    {
      if Differs(f.before, f.data, w) {
        hi := w + 1;
      }
      w := w + 1;
    }
    RunFound(f.before, f.data, lo, hi, w);
  }

  lemma {:induction false} RunFound(a: Page, b: Page, lo: nat, hi: nat, w: nat)
    requires lo < hi <= w <= WORDS && (forall k :: lo <= k < hi ==> Differs(a, b, k))
    requires w == hi == WORDS || (w == hi + 1 && !Differs(a, b, hi))
    ensures hi == RunEnd(a, b, lo) && Runs(a, b, lo) == [Span(lo, hi)] + Runs(a, b, w)
  {
    assert RunEnd(a, b, lo) == hi;
  }

  /** Append one patch record and its undo entry. */
  method EmitPatch(f: PageFrame, span: Span, wal: WalFile, txn: TxnContext)
    requires wal.Valid() && span.lo < span.hi <= WORDS
    requires 0 < f.page.fid < U64 && f.page.no < U32
    modifies wal, txn`wrote, txn`undo
    ensures wal.Valid() && wal.nextTxn == old(wal.nextTxn) && txn.wrote
    ensures wal.log == old(wal.log) + [PatchRec(txn.id, PatchOf(f.page, f.before, f.data, span))]
    ensures txn.undo == old(txn.undo) + [UndoOf(f.page, f.before, span)]
  {
    var _ := wal.Append(PatchRec(txn.id, PatchOf(f.page, f.before, f.data, span)));
    txn.undo := txn.undo + [UndoOf(f.page, f.before, span)];
    txn.wrote := true;
  }

  lemma {:induction false} PatchesSnoc(f: PageFrame, spans: seq<Span>, span: Span, txn: nat, log: seq<Rec>, undo: seq<TS.UndoEntry>)
    requires forall r :: r in spans + [span] ==> r.lo < r.hi <= WORDS
    ensures log + Records(txn, Patches(f.page, f.before, f.data, spans + [span])) ==
            (log + Records(txn, Patches(f.page, f.before, f.data, spans)))
            + [PatchRec(txn, PatchOf(f.page, f.before, f.data, span))]
    ensures undo + Undos(f.page, f.before, spans + [span]) ==
            (undo + Undos(f.page, f.before, spans)) + [UndoOf(f.page, f.before, span)]
  {
    var all := spans + [span];
    assert all[..|spans|] == spans && all[|spans|] == span;
    var ps := Patches(f.page, f.before, f.data, spans);
    RecordsSnoc(txn, ps, PatchOf(f.page, f.before, f.data, span), log);
  }

  lemma {:induction false} RecordsSnoc(txn: nat, ps: seq<PagePatch>, p: PagePatch, log: seq<Rec>)
    ensures log + Records(txn, ps + [p]) == (log + Records(txn, ps)) + [PatchRec(txn, p)]
  {
    var all := ps + [p];
    assert all[..|ps|] == ps && all[|ps|] == p;
  }
}
