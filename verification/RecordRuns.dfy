/** What runs of inserts, deletes and updates make of a record file
    (src/record/rm_file_handle.cpp). */
module RecordRuns {
  import opened Common
  import opened RecordPage
  import opened RecordFile
  import opened RmFiles

  datatype FileOp = Insert(buf: bytes) | Delete(rid: Rid) | Update(rid: Rid, buf: bytes)

  /** An operation and whether it succeeded. */
  datatype Event = Event(op: FileOp, ok: bool)

  datatype File = File(hdr: RmFileHdr, fv: FileView)

  /** What `InsertRecord`, `DeleteRecord` and `UpdateRecord` of a handle do to
      header and pages; a failed operation does nothing. */
  ghost predicate FileStep(a: File, e: Event, b: File) {
    if !e.ok then b == a else
    match e.op
    case Insert(buf) => exists rid :: InsertedPages(a.hdr, a.fv, b.hdr, b.fv, rid, buf)
    case Delete(rid) => ErasedPages(a.hdr, a.fv, b.fv, rid) && b.hdr == Erased(a.hdr, a.fv, rid)
    case Update(rid, buf) => UpdatedPages(a.fv, b.fv, rid, buf) && b.hdr == a.hdr
  }

  ghost predicate StepAt(files: seq<File>, events: seq<Event>, i: nat)
    requires |files| == |events| + 1 && i < |events|
  {
    FileStep(files[i], events[i], files[i + 1])
  }

  ghost predicate Run(files: seq<File>, events: seq<Event>) {
    |files| == |events| + 1 && forall i :: 0 <= i < |events| ==> StepAt(files, events, i)
  }

  /** A file as `create_file` makes it: a header page and nothing else. */
  ghost predicate Created(f: File) {
    WfLayout(f.hdr.layout) && f.hdr.numPages == 1 == |f.fv| && f.hdr.firstFree == RM_NO_PAGE
  }

  function Inserts(events: seq<Event>): nat {
    if events == [] then 0 else
    var e := events[|events| - 1];
    Inserts(events[..|events| - 1]) + if e.op.Insert? && e.ok then 1 else 0
  }

  /** No page is in the chain and no page holds more than one record. */
  ghost predicate Sparse(f: File) {
    && WfLayout(f.hdr.layout) && f.hdr.firstFree == RM_NO_PAGE && f.hdr.numPages == |f.fv| >= 1
    && forall p :: 1 <= p < |f.fv| ==> f.fv[p].num <= 1
  }

  lemma {:induction false} StepSparse(a: File, e: Event, b: File)
    requires Sparse(a) && FileStep(a, e, b)
    ensures Sparse(b) && b.hdr.layout == a.hdr.layout
    ensures |b.fv| == |a.fv| + if e.op.Insert? && e.ok then 1 else 0
  {
    CapacityFits(a.hdr.layout.recordSize);
    if e.ok && e.op.Insert? {
      assert forall p :: 1 <= p < |a.fv| ==> b.fv[p] == b.fv[..|a.fv|][p];
    }
  }

  /** In every run from a new file without positional inserts no page ever gets
      a second record: every insert adds a page, and space that deletes free is
      never used again. */
  lemma {:induction false} EveryInsertAddsAPage(files: seq<File>, events: seq<Event>, i: nat)
    requires Run(files, events) && Created(files[0]) && i < |files|
    ensures Sparse(files[i]) && files[i].hdr.numPages == 1 + Inserts(events[..i])
    ensures forall p :: 1 <= p < |files[i].fv| ==> files[i].fv[p].num < files[i].hdr.layout.perPage
  {
    if i > 0 {
      EveryInsertAddsAPage(files, events, i - 1);
      assert StepAt(files, events, i - 1);
      StepSparse(files[i - 1], events[i - 1], files[i]);
      assert events[..i][..i - 1] == events[..i - 1];
    }
    CapacityFits(files[i].hdr.layout.recordSize);
  }
}
