/**
 * The zip writer as the handler drives it: one entry per discovered segment
 * file, added in order, then finalized. Compression and the bytes written to
 * the response are the `archiver` library's business and are not modelled.
 */
module Archive {
  import opened JsText

  /** One archive entry: the file it is read from and the name it is stored under. */
  datatype Entry = Entry(source: string, name: string)

  /** The entries for `files` in `dir`: each stored under its own file name, in the given order. */
  function EntriesFor(dir: string, files: seq<string>): (es: seq<Entry>)
    ensures |es| == |files|
  {
    if files == [] then []
    else [Entry(JoinPath(dir, files[0]), files[0])] + EntriesFor(dir, files[1..])
  }

  /** Entry `i` is file `i`, read from `dir` and stored under its own name. */
  lemma {:induction false} EntriesForAt(dir: string, files: seq<string>)
    ensures forall i :: 0 <= i < |files| ==>
      EntriesFor(dir, files)[i].name == files[i] && EntriesFor(dir, files)[i].source == JoinPath(dir, files[i])
  {
    if files != [] {
      EntriesForAt(dir, files[1..]);
    }
  }

  lemma EntriesForSnoc(dir: string, files: seq<string>, f: string)
    ensures EntriesFor(dir, files + [f]) == EntriesFor(dir, files) + [Entry(JoinPath(dir, f), f)]
  {
    var lhs, rhs := EntriesFor(dir, files + [f]), EntriesFor(dir, files) + [Entry(JoinPath(dir, f), f)];
    EntriesForAt(dir, files + [f]);
    EntriesForAt(dir, files);
    forall i | 0 <= i < |lhs| ensures lhs[i] == rhs[i] {
      assert (files + [f])[i] == if i < |files| then files[i] else f;
    }
  }

  /** One more file of the list adds exactly its entry. */
  lemma EntriesForStep(dir: string, files: seq<string>, i: int)
    requires 0 <= i < |files|
    ensures EntriesFor(dir, files[..i + 1]) == EntriesFor(dir, files[..i]) + [Entry(JoinPath(dir, files[i]), files[i])]
  {
    assert files[..i + 1] == files[..i] + [files[i]];
    EntriesForSnoc(dir, files[..i], files[i]);
  }

  /** The list of entries an `archiver("zip")` writer has been given, and whether it was finalized. */
  class ZipArchive {
    var entries: seq<Entry>
    var finalized: bool

    constructor ()
      ensures entries == [] && !finalized
    {
      entries := [];
      finalized := false;
    }

    /** `archive.file(source, { name })` */
    method File(source: string, name: string)
      requires !finalized
      modifies this
      ensures entries == old(entries) + [Entry(source, name)]
      ensures finalized == old(finalized)
    {
      entries := entries + [Entry(source, name)];
    }

    /** `archive.finalize()`: no entry is added afterwards. */
    method Finalize()
      modifies this
      ensures finalized
      ensures entries == old(entries)
    {
      finalized := true;
    }
  }

  /** The loop that adds each file of `dir` under its own name, in order. */
  method AddSegmentFiles(archive: ZipArchive, dir: string, files: seq<string>)
    requires !archive.finalized
    modifies archive
    ensures archive.entries == old(archive.entries) + EntriesFor(dir, files)
    ensures archive.finalized == old(archive.finalized)
  {
    ghost var before := archive.entries;
    for i := 0 to |files|
      invariant archive.entries == before + EntriesFor(dir, files[..i])
      invariant archive.finalized == old(archive.finalized)
    {
      EntriesForStep(dir, files, i);
      var name := files[i];
      var source := JoinPath(dir, name);
      archive.File(source, name);
    }
    assert files[..|files|] == files;
  }
}
