/** The engine's transactions as runs of the step system: what mark_dirty, drop, commit and rollback do to the values the
    engine's objects hold (src/storage/engine.cpp). */
module EngineSteps {
  import opened Bytes
  import opened Disk
  import opened LogRecords
  import opened BufferPool
  import opened Seqs
  import TS = TxnSystem

  // ---- mark_dirty as steps ----

  function PatchSteps(id: PageId, rs: seq<Span>): (steps: seq<TS.Step>)
    requires SpansOk(rs)
    ensures |steps| == |rs|
  {
    if rs == [] then []
    else
      var r := rs[|rs| - 1];
      PatchSteps(id, rs[..|rs| - 1]) + [TS.LogPatch(id, r.lo * WORD, r.hi * WORD - r.lo * WORD)]
  }

  function Patched(s: TS.State, id: PageId, before: Page, data: Page, rs: seq<Span>): TS.State
    requires SpansOk(rs) && s.txn.Some? && id in s.frames
  {
    var t := s.txn.value;
    var ps := Patches(id, before, data, rs);
    s.(frames := s.frames[id := TS.Frame(data, PutAll(before, ps, false), s.frames[id].dirty || rs != [])],
       log := s.log + Records(t.id, ps),
       txn := Some(t.(undo := t.undo + Undos(id, before, rs))))
  }

  lemma {:induction false} PatchStepsRun(s: TS.State, id: PageId, before: Page, data: Page, rs: seq<Span>)
    requires SpansOk(rs) && Ordered(rs)
    requires s.unlinks == [] && s.txn.Some? && !s.txn.value.rolling && id.fid !in s.txn.value.drops
    requires id in s.frames && s.frames[id].data == data && s.frames[id].base == before
    ensures TS.CanRun(s, PatchSteps(id, rs)) && TS.Run(s, PatchSteps(id, rs)) == Patched(s, id, before, data, rs)
  {
    if rs == [] {
      NothingPatched(s, id, before, data);
    } else {
      var n := |rs| - 1;
      var front, r := rs[..n], rs[n];
      PatchStepsRun(s, id, before, data, front);
      PatchOne(s, Patched(s, id, before, data, front), id, before, data, rs);
      var step := TS.LogPatch(id, r.lo * WORD, r.hi * WORD - r.lo * WORD);
      var steps := PatchSteps(id, front);
      TS.RunSnoc(s, steps, step);
      assert TS.Run(s, steps + [step]) == Patched(s, id, before, data, rs);
      assert PatchSteps(id, rs) == steps + [step];
    }
  }

  lemma {:induction false} NothingPatched(s: TS.State, id: PageId, before: Page, data: Page)
    requires s.txn.Some? && id in s.frames && s.frames[id].data == data && s.frames[id].base == before
    ensures Patched(s, id, before, data, []) == s
  {
    assert s.log + [] == s.log && s.txn.value.undo + [] == s.txn.value.undo;
    assert s.frames[id := s.frames[id]] == s.frames;
  }

  lemma {:induction false} PatchOne(s: TS.State, s1: TS.State, id: PageId, before: Page, data: Page, rs: seq<Span>)
    requires SpansOk(rs) && Ordered(rs) && rs != []
    requires s.unlinks == [] && s.txn.Some? && !s.txn.value.rolling && id.fid !in s.txn.value.drops
    requires id in s.frames && s.frames[id].data == data && s.frames[id].base == before
    requires s1 == Patched(s, id, before, data, rs[..|rs| - 1])
    ensures var r := rs[|rs| - 1];
            var step := TS.LogPatch(id, r.lo * WORD, r.hi * WORD - r.lo * WORD);
            TS.Enabled(s1, step) && TS.Apply(s1, step) == Patched(s, id, before, data, rs)
  {
    var r := rs[|rs| - 1];
    var off, len := r.lo * WORD, r.hi * WORD - r.lo * WORD;
    NotYetPatched(id, before, data, rs);
    var f := s1.frames[id];
    assert f.base[off..off + len] == before[off..off + len];
    assert off + len == r.hi * WORD;
    var s2 := TS.Apply(s1, TS.LogPatch(id, off, len));
    StepPatches(s, s1, s2, id, before, data, rs);
  }

  /** The next run of an ordered list is still unpatched. */
  lemma {:induction false} NotYetPatched(id: PageId, before: Page, data: Page, rs: seq<Span>)
    requires SpansOk(rs) && Ordered(rs) && rs != []
    ensures var n := |rs| - 1;
            var base := PutAll(before, Patches(id, before, data, rs[..n]), false);
            base[rs[n].lo * WORD..rs[n].hi * WORD] == before[rs[n].lo * WORD..rs[n].hi * WORD]
  {
    var n := |rs| - 1;
    var base := PutAll(before, Patches(id, before, data, rs[..n]), false);
    var lo, hi := rs[n].lo * WORD, rs[n].hi * WORD;
    forall k | lo <= k < hi ensures base[k] == before[k] {
      EarlierRunsApart(rs, k);
      PutByte(id, before, data, rs[..n], before, false, k);
    }
    SliceEqual(base, before, lo, hi);
  }

  lemma {:induction false} EarlierRunsApart(rs: seq<Span>, k: nat)
    requires SpansOk(rs) && Ordered(rs) && rs != []
    requires rs[|rs| - 1].lo * WORD <= k < rs[|rs| - 1].hi * WORD
    ensures !InSomeRun(rs[..|rs| - 1], k)
  {
    var n := |rs| - 1;
    forall r | r in rs[..n] ensures !(r.lo * WORD <= k < r.hi * WORD) {
      var i :| 0 <= i < n && rs[i] == r;
    }
  }

  /** One run more: frames, log and undo list one after the other. */
  lemma {:induction false} StepPatches(s: TS.State, s1: TS.State, s2: TS.State, id: PageId, before: Page, data: Page, rs: seq<Span>)
    requires SpansOk(rs) && rs != [] && s.txn.Some? && id in s.frames
    requires s1 == Patched(s, id, before, data, rs[..|rs| - 1])
    requires var r := rs[|rs| - 1];
             var off, len := r.lo * WORD, r.hi * WORD - r.lo * WORD;
             && s1.frames[id].base[off..off + len] == before[off..off + len]
             && TS.Enabled(s1, TS.LogPatch(id, off, len)) && s2 == TS.Apply(s1, TS.LogPatch(id, off, len))
    ensures s2 == Patched(s, id, before, data, rs)
  {
    var n := |rs| - 1;
    var front, r, t := rs[..n], rs[n], s.txn.value;
    var p, u := PatchOf(id, before, data, r), UndoOf(id, before, r);
    assert s2.log == s1.log + [PatchRec(t.id, p)] && s2.txn.value.undo == s1.txn.value.undo + [u];
    StepLog(s.log, t.id, id, before, data, front, p);
    StepUndo(t.undo, id, before, front, u);
    StepFrames(s, s1, s2, id, before, data, rs);
  }

  lemma {:induction false} StepLog(log: seq<Rec>, txn: nat, id: PageId, before: Page, data: Page, front: seq<Span>, p: PagePatch)
    requires SpansOk(front)
    ensures var ps := Patches(id, before, data, front);
            (log + Records(txn, ps)) + [PatchRec(txn, p)] == log + Records(txn, ps + [p])
  {
    RecordsSnoc(txn, Patches(id, before, data, front), p, log);
  }

  lemma {:induction false} StepUndo(undo: seq<TS.UndoEntry>, id: PageId, before: Page, front: seq<Span>, u: TS.UndoEntry)
    requires SpansOk(front)
    ensures (undo + Undos(id, before, front)) + [u] == undo + (Undos(id, before, front) + [u])
  {
  }

  lemma {:induction false} StepFrames(s: TS.State, s1: TS.State, s2: TS.State, id: PageId, before: Page, data: Page, rs: seq<Span>)
    requires SpansOk(rs) && rs != [] && s.txn.Some? && id in s.frames
    requires s1 == Patched(s, id, before, data, rs[..|rs| - 1])
    requires var r := rs[|rs| - 1];
             TS.Enabled(s1, TS.LogPatch(id, r.lo * WORD, r.hi * WORD - r.lo * WORD))
             && s2 == TS.Apply(s1, TS.LogPatch(id, r.lo * WORD, r.hi * WORD - r.lo * WORD))
    ensures s2.frames == Patched(s, id, before, data, rs).frames
  {
    var front, r := rs[..|rs| - 1], rs[|rs| - 1];
    var ps, p := Patches(id, before, data, front), PatchOf(id, before, data, r);
    assert (ps + [p])[..|ps|] == ps;
    var f1, f2 := s1.frames[id], TS.Frame(data, PutAll(before, Patches(id, before, data, rs), false), true);
    assert s1.frames == s.frames[id := f1];
    assert s2.frames == s1.frames[id := f2];
  }

  /** Logging every run of a page and setting its dirty flag brings the baseline up to the data. */
  lemma {:induction false} MarkDirtyRun(s: TS.State, id: PageId)
    requires s.unlinks == [] && s.txn.Some? && !s.txn.value.rolling && id.fid !in s.txn.value.drops
    requires id in s.frames
    ensures var f := s.frames[id];
            var rs := Runs(f.base, f.data, 0);
            var steps := PatchSteps(id, rs) + [TS.SetDirty(id)];
            var t := s.txn.value;
            && TS.CanRun(s, steps)
            && TS.Run(s, steps) == s.(
                 frames := s.frames[id := TS.Frame(f.data, f.data, true)],
                 log := s.log + Records(t.id, Patches(id, f.base, f.data, rs)),
                 txn := Some(t.(undo := t.undo + Undos(id, f.base, rs))))
  {
    var f := s.frames[id];
    var rs := Runs(f.base, f.data, 0);
    RunsOrdered(f.base, f.data, 0);
    PatchStepsRun(s, id, f.base, f.data, rs);
    DiffBothWays(id, f.base, f.data);
    TS.RunSnoc(s, PatchSteps(id, rs), TS.SetDirty(id));
    var s1 := Patched(s, id, f.base, f.data, rs);
    assert TS.Apply(s1, TS.SetDirty(id)).frames == s.frames[id := TS.Frame(f.data, f.data, true)];
  }

  // ---- tail pages ----

  /** The value the oldest undo entry for a file recorded. */
  function FirstTail(undo: seq<TailUndo>, fid: nat): Option<Option<nat>> {
    if undo == [] then None
    else
      var first := FirstTail(undo[..|undo| - 1], fid);
      if first.Some? then first
      else if undo[|undo| - 1].fid == fid then Some(undo[|undo| - 1].tail)
      else None
  }

  function Lookup(m: map<nat, nat>, fid: nat): Option<nat> {
    if fid in m then Some(m[fid]) else None
  }

  function TailBack(tail: map<nat, nat>, undo: seq<TailUndo>, fid: nat): Option<nat> {
    if FirstTail(undo, fid).Some? then FirstTail(undo, fid).value else Lookup(tail, fid)
  }

  predicate FitsId(id: PageId) {
    0 < id.fid < U64 && id.no < U32
  }

  /** The transaction object as a value, but for the tail pages. */
  datatype TxnView = TxnView(id: nat, wrote: bool, undo: seq<TS.UndoEntry>, drops: seq<nat>)

  ghost function View(t: TxnContext?): Option<TxnView>
    reads t
  {
    if t == null then None else Some(TxnView(t.id, t.wrote, t.undo, t.drops))
  }

  /** The tail-page undo entries lead back to the table as it was at begin, except for a file that was
      dropped without having been written to in this transaction: its entry is gone for good. */
  ghost predicate TailsTracked(undo: seq<TailUndo>, drops: seq<nat>, tail: map<nat, nat>, atBegin: map<nat, nat>) {
    forall fid :: TailTracked(undo, fid in drops, tail, atBegin, fid)
  }

  predicate TailTracked(undo: seq<TailUndo>, dropped: bool, tail: map<nat, nat>, atBegin: map<nat, nat>, fid: nat) {
    if !dropped || FirstTail(undo, fid).Some? then TailBack(tail, undo, fid) == Lookup(atBegin, fid) else fid !in tail
  }

  function MarkDirtySteps(id: PageId, before: Page, data: Page): seq<TS.Step> {
    PatchSteps(id, Runs(before, data, 0)) + [TS.SetDirty(id)]
  }

  // ---- rollback as steps ----

  datatype Pages = Pages(cached: map<PageId, TS.Frame>, files: Files)

  /** Put one undo entry back: into the frame when the page is cached, into the file otherwise. */
  function UndoEntryOn(p: Pages, u: TS.UndoEntry): Pages {
    if u.page in p.cached then p.(cached := p.cached[u.page := TS.Restored(p.cached[u.page], u)])
    else p.(files := WritePage(p.files, u.page, Overwrite(At(p.files, u.page), u.off, u.bytes)))
  }

  /** The whole undo list, newest entry first. */
  function UndoAll(p: Pages, undo: seq<TS.UndoEntry>): Pages
    decreases |undo|
  {
    if undo == [] then p else UndoAll(UndoEntryOn(p, undo[|undo| - 1]), undo[..|undo| - 1])
  }

  function RollbackSteps(n: nat): seq<TS.Step> {
    if n == 0 then [TS.Abort] else [TS.UndoOne] + RollbackSteps(n - 1)
  }

  function RolledBack(s: TS.State): TS.State
    requires s.txn.Some?
  {
    var p := UndoAll(Pages(s.frames, s.files), s.txn.value.undo);
    s.(frames := p.cached, files := p.files, txn := None,
       log := if TS.Wrote(s) then s.log + [AbortRec(s.txn.value.id)] else s.log)
  }

  lemma {:induction false} RollbackRun(s: TS.State)
    requires s.txn.Some? && s.unlinks == []
    ensures TS.CanRun(s, RollbackSteps(|s.txn.value.undo|))
    ensures TS.Run(s, RollbackSteps(|s.txn.value.undo|)) == RolledBack(s)
    decreases |s.txn.value.undo|
  {
    var n := |s.txn.value.undo|;
    if n == 0 {
      TS.RunOne(s, TS.Abort);
    } else {
      var s' := TS.Apply(s, TS.UndoOne);
      RollbackRun(s');
      assert ([TS.UndoOne] + RollbackSteps(n - 1))[1..] == RollbackSteps(n - 1);
    }
  }

  /** No change is waiting for its mark_dirty: what readers see is what the log knows. */
  ghost predicate AllMarked(cached: map<PageId, TS.Frame>) {
    forall id :: id in cached ==> cached[id].data == cached[id].base
  }

  /** Where baselines agree with the data, restoring keeps them in agreement. */
  lemma {:induction false} UndoKeepsMarked(p: Pages, undo: seq<TS.UndoEntry>)
    requires AllMarked(p.cached)
    ensures AllMarked(UndoAll(p, undo).cached)
    decreases |undo|
  {
    if undo != [] {
      var q := UndoEntryOn(p, undo[|undo| - 1]);
      assert AllMarked(q.cached);
      UndoKeepsMarked(q, undo[..|undo| - 1]);
      assert UndoAll(p, undo) == UndoAll(q, undo[..|undo| - 1]);
    }
  }

  lemma {:induction false} UndoKeepsKeys(p: Pages, undo: seq<TS.UndoEntry>)
    ensures UndoAll(p, undo).cached.Keys == p.cached.Keys
    decreases |undo|
  {
    if undo != [] {
      UndoKeepsKeys(UndoEntryOn(p, undo[|undo| - 1]), undo[..|undo| - 1]);
    }
  }

  // ---- commit as steps ----

  function RemoveAll(files: Files, fids: seq<nat>): Files
    decreases |fids|
  {
    if fids == [] then files else RemoveAll(RemoveFile(files, fids[0]), fids[1..])
  }

  function CommitSteps(n: nat): seq<TS.Step> {
    [TS.Commit] + seq(n, _ => TS.Unlink)
  }

  lemma {:induction false} UnlinkRun(s: TS.State)
    ensures TS.CanRun(s, seq(|s.unlinks|, _ => TS.Unlink))
    ensures TS.Run(s, seq(|s.unlinks|, _ => TS.Unlink)) == s.(files := RemoveAll(s.files, s.unlinks), unlinks := [])
    decreases |s.unlinks|
  {
    var steps := seq(|s.unlinks|, _ => TS.Unlink);
    if s.unlinks != [] {
      var s' := TS.Apply(s, TS.Unlink);
      UnlinkRun(s');
      assert steps[1..] == seq(|s'.unlinks|, _ => TS.Unlink);
    }
  }

  lemma {:induction false} SetTailTracked(undo: seq<TailUndo>, drops: seq<nat>, tail: map<nat, nat>, atBegin: map<nat, nat>, fid: nat, no: nat)
    requires TailsTracked(undo, drops, tail, atBegin) && fid !in drops
    ensures TailsTracked(undo + [TailUndo(fid, Lookup(tail, fid))], drops, tail[fid := no], atBegin)
  {
    var undo' := undo + [TailUndo(fid, Lookup(tail, fid))];
    assert undo'[..|undo|] == undo;
    forall f ensures TailTracked(undo', f in drops, tail[fid := no], atBegin, f) {
      assert TailTracked(undo, f in drops, tail, atBegin, f);
    }
  }

  /** The files whose tail entry a rollback brings back. */
  predicate TailKept(undo: seq<TailUndo>, drops: seq<nat>, atBegin: map<nat, nat>, fid: nat) {
    fid !in drops || fid !in atBegin || FirstTail(undo, fid).Some?
  }

  lemma {:induction false} TailsBack(undo: seq<TailUndo>, drops: seq<nat>, tail: map<nat, nat>, atBegin: map<nat, nat>, back: map<nat, nat>)
    requires TailsTracked(undo, drops, tail, atBegin)
    requires forall fid :: Lookup(back, fid) == TailBack(tail, undo, fid)
    ensures forall fid :: Lookup(back, fid) == Lookup(atBegin, fid) <==> TailKept(undo, drops, atBegin, fid)
  {
    forall fid ensures Lookup(back, fid) == Lookup(atBegin, fid) <==> TailKept(undo, drops, atBegin, fid) {
      assert TailTracked(undo, fid in drops, tail, atBegin, fid);
      assert Lookup(back, fid) == TailBack(tail, undo, fid);
    }
  }

  lemma {:induction false} DropTailTracked(undo: seq<TailUndo>, drops: seq<nat>, tail: map<nat, nat>, atBegin: map<nat, nat>, fid: nat)
    requires TailsTracked(undo, drops, tail, atBegin)
    ensures TailsTracked(undo, drops + [fid], tail - {fid}, atBegin)
  {
    forall f ensures TailTracked(undo, f in drops + [fid], tail - {fid}, atBegin, f) {
      assert TailTracked(undo, f in drops, tail, atBegin, f);
    }
  }
}
