/** Data files as sequences of 4 KB pages (src/storage/file_manager.cpp). */
module Disk {
  import opened Bytes

  const PAGE_SIZE := 4096

  /** A page of zeros: what a file hole, or a page past the end of its file, reads as. */
  function ZeroPage(): (z: seq<byte>)
    ensures |z| == PAGE_SIZE && forall k :: 0 <= k < PAGE_SIZE ==> z[k] == 0
  {
    seq(PAGE_SIZE, _ => 0)
  }

  type Page = p: seq<byte> | |p| == PAGE_SIZE witness ZeroPage()

  datatype PageId = PageId(fid: nat, no: nat)

  /** File id to the pages of that file; an absent id is a file that does not exist. */
  type Files = map<nat, seq<Page>>

  /** What a page read returns: bytes past the end of a file, or of a missing file, read as zero. */
  function At(d: Files, id: PageId): Page {
    if id.fid in d && id.no < |d[id.fid]| then d[id.fid][id.no] else ZeroPage()
  }

  /** The pages of a file after making sure page `no` exists; the gap is a hole of zeros. */
  function Grown(f: seq<Page>, no: nat): (g: seq<Page>)
    ensures |g| > no && |g| >= |f|
  {
    if no < |f| then f else f + seq(no + 1 - |f|, _ => ZeroPage())
  }

  function WritePage(d: Files, id: PageId, pg: Page): Files {
    var f := Grown(if id.fid in d then d[id.fid] else [], id.no);
    d[id.fid := f[id.no := pg]]
  }

  function RemoveFile(d: Files, fid: nat): Files {
    d - {fid}
  }

  /** A write changes exactly one page, even when it makes the file longer. */
  lemma {:induction false} AtWrite(d: Files, id: PageId, pg: Page, other: PageId)
    ensures At(WritePage(d, id, pg), other) == if other == id then pg else At(d, other)
  {
  }

  lemma {:induction false} AtRemove(d: Files, fid: nat, other: PageId)
    ensures At(RemoveFile(d, fid), other) == if other.fid == fid then ZeroPage() else At(d, other)
  {
  }

  /** memcpy of `bytes` into a page at `off`. */
  function Overwrite(pg: Page, off: nat, bytes: seq<byte>): Page
    requires off + |bytes| <= PAGE_SIZE
  {
    seq(PAGE_SIZE, k requires 0 <= k < PAGE_SIZE => if off <= k < off + |bytes| then bytes[k - off] else pg[k])
  }

  lemma {:induction false} OverwriteByte(pg: Page, off: nat, bytes: seq<byte>, k: nat)
    requires off + |bytes| <= PAGE_SIZE && k < PAGE_SIZE
    ensures Overwrite(pg, off, bytes)[k] == if off <= k < off + |bytes| then bytes[k - off] else pg[k]
  {
  }
}
