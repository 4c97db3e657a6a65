/** src/pages/UploadPage.jsx: the selected-file list (de-duplication by name
    and removal), the new-folder guard, and the upload queue drain. The four
    concurrent runners are modelled sequentially: one upload completes before
    the next file is taken from the queue. */
module UploadPage {
  import opened Common
  import opened Seqs
  import opened Text

  /** A browser `File`, as far as the page looks at it. */
  datatype LocalFile = LocalFile(name: string, size: nat)

  function Names(fs: seq<LocalFile>): set<string> {
    set f | f in fs :: f.name
  }

  /** No two files share a name. */
  predicate UniqueNames(fs: seq<LocalFile>) {
    forall i, j :: 0 <= i < j < |fs| ==> fs[i].name != fs[j].name
  }

  lemma NamesSnoc(fs: seq<LocalFile>, f: LocalFile)
    ensures Names(fs + [f]) == Names(fs) + {f.name}
  {
    assert forall g :: g in fs + [f] <==> g in fs || g == f;
  }

  lemma NamesAppend(a: seq<LocalFile>, b: seq<LocalFile>)
    ensures Names(a + b) == Names(a) + Names(b)
  {
    assert forall g :: g in a + b <==> g in a || g in b;
  }

  // ---------------------------------------------------------------------
  // handleFileChange

  /** The files `handleFileChange` keeps from `selected`, in order: a file is
      kept when its name is neither already listed nor used by an earlier
      file of the same selection. */
  function Accepted(listed: set<string>, selected: seq<LocalFile>): (r: seq<LocalFile>)
    ensures |r| <= |selected|
    ensures forall f :: f in r ==> f in selected && f.name !in listed
    decreases |selected|
  {
    if selected == [] then []
    else
      var p, f := selected[..|selected| - 1], selected[|selected| - 1];
      if f.name in listed || f.name in Names(p) then Accepted(listed, p) else Accepted(listed, p) + [f]
  }

  /** The names of the files it skips, in order. */
  function Skipped(listed: set<string>, selected: seq<LocalFile>): (r: seq<string>)
    ensures |r| <= |selected|
    ensures forall n :: n in r ==> n in Names(selected)
    decreases |selected|
  {
    if selected == [] then []
    else
      var p, f := selected[..|selected| - 1], selected[|selected| - 1];
      if f.name in listed || f.name in Names(p) then Skipped(listed, p) + [f.name] else Skipped(listed, p)
  }

  /** The kept files carry each new name exactly once and no listed name. */
  lemma {:induction false} AcceptedNames(listed: set<string>, selected: seq<LocalFile>)
    ensures Names(Accepted(listed, selected)) == Names(selected) - listed
    ensures UniqueNames(Accepted(listed, selected))
    decreases |selected|
  {
    if selected != [] {
      var p, f := selected[..|selected| - 1], selected[|selected| - 1];
      AcceptedNames(listed, p);
      assert selected == p + [f];
      NamesSnoc(p, f);
      var a := Accepted(listed, p);
      if !(f.name in listed || f.name in Names(p)) {
        NamesSnoc(a, f);
        forall i | 0 <= i < |a| ensures a[i].name != f.name {
          assert a[i] in a;
        }
      }
    }
  }

  /** Every file is either kept or skipped. */
  lemma {:induction false} AcceptedPlusSkipped(listed: set<string>, selected: seq<LocalFile>)
    ensures |Accepted(listed, selected)| + |Skipped(listed, selected)| == |selected|
    decreases |selected|
  {
    if selected != [] {
      AcceptedPlusSkipped(listed, selected[..|selected| - 1]);
    }
  }

  /** The kept files are in selection order. */
  lemma {:induction false} AcceptedInOrder(listed: set<string>, selected: seq<LocalFile>)
    ensures IsSubseq(Accepted(listed, selected), selected)
    decreases |selected|
  {
    if selected != [] {
      var p, f := selected[..|selected| - 1], selected[|selected| - 1];
      AcceptedInOrder(listed, p);
      var a := Accepted(listed, p);
      if f.name in listed || f.name in Names(p) {
        SubseqOfPrefix(a, selected);
      } else {
        assert (a + [f])[..|a|] == a;
      }
    }
  }

  /** No file of `fs` has a listed name. */
  predicate NoneListed(listed: set<string>, fs: seq<LocalFile>) {
    forall i :: 0 <= i < |fs| ==> fs[i].name !in listed
  }

  lemma UniqueSnoc(p: seq<LocalFile>, f: LocalFile)
    ensures UniqueNames(p + [f]) <==> UniqueNames(p) && f.name !in Names(p)
  {
    var s := p + [f];
    if UniqueNames(s) {
      forall g | g in p ensures g.name != f.name {
        var i :| 0 <= i < |p| && p[i] == g;
        assert s[i] == g && s[|p|] == f;
      }
      forall i, j | 0 <= i < j < |p| ensures p[i].name != p[j].name {
        assert s[i] == p[i] && s[j] == p[j];
      }
    }
    if UniqueNames(p) && f.name !in Names(p) {
      forall i, j | 0 <= i < j < |s| ensures s[i].name != s[j].name {
        if j < |p| { assert s[i] == p[i] && s[j] == p[j]; }
        else { assert s[i] in p; }
      }
    }
  }

  lemma NoneListedSnoc(listed: set<string>, p: seq<LocalFile>, f: LocalFile)
    ensures NoneListed(listed, p + [f]) <==> NoneListed(listed, p) && f.name !in listed
  {
    var s := p + [f];
    if NoneListed(listed, s) {
      forall i | 0 <= i < |p| ensures p[i].name !in listed { assert s[i] == p[i]; }
      assert s[|p|] == f;
    }
  }

  /** Nothing is skipped (so no warning is shown) exactly when the selection
      has no repeated name and no already listed name. */
  lemma {:induction false} NothingSkipped(listed: set<string>, selected: seq<LocalFile>)
    ensures Skipped(listed, selected) == [] <==> UniqueNames(selected) && NoneListed(listed, selected)
    decreases |selected|
  {
    if selected != [] {
      var p, f := selected[..|selected| - 1], selected[|selected| - 1];
      NothingSkipped(listed, p);
      assert selected == p + [f];
      UniqueSnoc(p, f);
      NoneListedSnoc(listed, p, f);
    }
  }

  /** The list stays free of repeated names. */
  lemma NoDuplicatesAfterChange(files: seq<LocalFile>, selected: seq<LocalFile>)
    requires UniqueNames(files)
    ensures UniqueNames(files + Accepted(Names(files), selected))
  {
    var a := Accepted(Names(files), selected);
    AcceptedNames(Names(files), selected);
    var r := files + a;
    forall i, j | 0 <= i < j < |r| ensures r[i].name != r[j].name {
      if j < |files| {
        assert r[i] == files[i] && r[j] == files[j];
      } else if i < |files| {
        assert r[j] == a[j - |files|] && r[j] in a;
        assert r[i] == files[i] && r[i].name in Names(files);
      } else {
        assert r[i] == a[i - |files|] && r[j] == a[j - |files|];
      }
    }
  }

  /** What one more selected file does to the names seen so far and to the
      kept and skipped files. */
  lemma ChangeStep(listed: set<string>, selected: seq<LocalFile>, i: nat, existing: set<string>)
    requires i < |selected| && existing == listed + Names(selected[..i])
    ensures var p, q, f := selected[..i], selected[..i + 1], selected[i];
      && existing + {f.name} == listed + Names(q)
      && (f.name in existing <==> f.name in listed + Names(p))
      && Accepted(listed, q) == (if f.name in existing then Accepted(listed, p) else Accepted(listed, p) + [f])
      && Skipped(listed, q) == (if f.name in existing then Skipped(listed, p) + [f.name] else Skipped(listed, p))
  {
    var p, q, f := selected[..i], selected[..i + 1], selected[i];
    assert q[..i] == p && q[i] == f;
    assert q == p + [f];
    NamesSnoc(p, f);
  }

  /** The list after a selection, and the duplicate warning if one is shown. */
  method HandleFileChange(files: seq<LocalFile>, selected: seq<LocalFile>) returns (next: seq<LocalFile>, warning: Option<string>)
    ensures next == files + Accepted(Names(files), selected)
    ensures warning.None? <==> Skipped(Names(files), selected) == []
    ensures warning.Some? ==> warning.value == "Skipped duplicates: " + Join(Skipped(Names(files), selected), ", ")
  {
    ghost var listed := Names(files);
    var existing := Names(files);
    var filtered: seq<LocalFile> := [];
    var dupes: seq<string> := [];
    assert Names(selected[..0]) == {};
    for i := 0 to |selected|
      invariant existing == listed + Names(selected[..i])
      invariant filtered == Accepted(listed, selected[..i])
      invariant dupes == Skipped(listed, selected[..i])
    {
      var f := selected[i];
      ChangeStep(listed, selected, i, existing);
      if f.name !in existing {
        filtered := filtered + [f];
        existing := existing + {f.name};
      } else {
        dupes := dupes + [f.name];
      }
    }
    assert selected[..|selected|] == selected;
    warning := None;
    if |dupes| > 0 {
      warning := Some("Skipped duplicates: " + Join(dupes, ", "));
    }
    next := files + filtered;
  }

  // ---------------------------------------------------------------------
  // handleRemoveFile

  function NameIsNot(name: string): LocalFile -> bool {
    (f: LocalFile) => f.name != name
  }

  /** `prev.filter((f) => f.name !== name)`. */
  function RemoveFile(files: seq<LocalFile>, name: string): (r: seq<LocalFile>)
    ensures name !in Names(r)
    ensures forall f :: f in r <==> f in files && f.name != name
    ensures IsSubseq(r, files)
    ensures forall f :: multiset(r)[f] == if f.name == name then 0 else multiset(files)[f]
  {
    FilterIsSubseq(files, NameIsNot(name));
    FilterMultiset(files, NameIsNot(name));
    Filter(files, NameIsNot(name))
  }

  /** Removing twice is removing once, and a list without repeated names
      keeps that property. */
  lemma RemoveFileProperties(files: seq<LocalFile>, name: string)
    ensures RemoveFile(RemoveFile(files, name), name) == RemoveFile(files, name)
    ensures name !in Names(files) ==> RemoveFile(files, name) == files
    ensures UniqueNames(files) ==> UniqueNames(RemoveFile(files, name))
  {
    FilterIdempotent(files, NameIsNot(name));
    if name !in Names(files) {
      FilterKeepsAll(files, NameIsNot(name));
    }
    if UniqueNames(files) {
      UniqueNamesFilter(files, NameIsNot(name));
    }
  }

  lemma {:induction false} UniqueNamesFilter(s: seq<LocalFile>, p: LocalFile -> bool)
    requires UniqueNames(s)
    ensures UniqueNames(Filter(s, p))
    decreases |s|
  {
    if s != [] {
      var s', x := s[..|s| - 1], s[|s| - 1];
      assert UniqueNames(s') by {
        forall i, j | 0 <= i < j < |s'| ensures s'[i].name != s'[j].name { assert s'[i] == s[i] && s'[j] == s[j]; }
      }
      UniqueNamesFilter(s', p);
      var r := Filter(s', p);
      if p(x) {
        forall i | 0 <= i < |r| ensures r[i].name != x.name {
          assert r[i] in s';
          var k :| 0 <= k < |s'| && s'[k] == r[i];
          assert s[k] == r[i];
        }
      }
    }
  }

  // ---------------------------------------------------------------------
  // handleCreateFolder

  /** The name sent to `createFolder`: the trimmed input, or nothing for an
      empty or whitespace-only input. */
  function CreateFolderName(input: string): (r: Option<string>)
    ensures r.None? <==> AllSpace(input)
    ensures r.Some? ==> r.value != [] && !IsSpace(r.value[0]) && !IsSpace(r.value[|r.value| - 1])
    ensures r.Some? ==> var i := |input| - |TrimStart(input)|;
      && i + |r.value| <= |input| && r.value == input[i..i + |r.value|]
      && AllSpace(input[..i]) && AllSpace(input[i + |r.value|..])
  {
    TrimEmpty(input);
    TrimIsSlice(input);
    var t := Trim(input);
    if t == [] then None else Some(t)
  }

  // ---------------------------------------------------------------------
  // handleUpload and its runners

  /** The number of runners started. */
  const Concurrency: nat := 4

  /** The number of failed uploads among the first `n` dequeued files; a
      runner whose upload throws stops for good. */
  function Failures(uploadOk: nat -> bool, n: nat): (k: nat)
    ensures k <= n
  {
    if n == 0 then 0 else Failures(uploadOk, n - 1) + (if uploadOk(n - 1) then 0 else 1)
  }

  /** How many files are dequeued before the queue is empty or every runner
      has stopped. */
  function DrainCount(uploadOk: nat -> bool, total: nat): (m: nat)
    ensures m <= total
    ensures forall j :: 0 <= j < m ==> Failures(uploadOk, j) < Concurrency
    ensures m < total ==> Failures(uploadOk, m) >= Concurrency
  {
    if total == 0 then 0
    else
      var m := DrainCount(uploadOk, total - 1);
      if m < total - 1 then m
      else if Failures(uploadOk, total - 1) < Concurrency then total
      else total - 1
  }

  /** The names of the first `n` dequeued files whose upload completed:
      each is filtered out of the list. */
  function Completed(files: seq<LocalFile>, uploadOk: nat -> bool, n: nat): (done: set<string>)
    requires n <= |files|
    ensures |done| + Failures(uploadOk, n) <= n
  {
    if n == 0 then {}
    else Completed(files, uploadOk, n - 1) + (if uploadOk(n - 1) then {files[n - 1].name} else {})
  }

  lemma CompletedHas(files: seq<LocalFile>, uploadOk: nat -> bool, n: nat, i: nat)
    requires i < n <= |files| && uploadOk(i)
    ensures files[i].name in Completed(files, uploadOk, n)
  {
  }

  function NameNotIn(done: set<string>): LocalFile -> bool {
    (f: LocalFile) => f.name !in done
  }

  /** What the list is after the first `n` dequeued files: each completed
      upload filters its name out. */
  function ListAfter(files: seq<LocalFile>, uploadOk: nat -> bool, n: nat): (r: seq<LocalFile>)
    requires n <= |files|
    ensures |r| <= |files|
    ensures forall f :: f in r ==> f in files
  {
    if n == 0 then files
    else
      var before := ListAfter(files, uploadOk, n - 1);
      if uploadOk(n - 1) then Filter(before, NameIsNot(files[n - 1].name)) else before
  }

  /** The list after `n` files is the original list without the names of
      the completed uploads among them. */
  lemma {:induction false} ListAfterFilters(files: seq<LocalFile>, uploadOk: nat -> bool, n: nat)
    requires n <= |files|
    ensures ListAfter(files, uploadOk, n) == Filter(files, NameNotIn(Completed(files, uploadOk, n)))
  {
    if n == 0 {
      FilterKeepsAll(files, NameNotIn({}));
    } else {
      ListAfterFilters(files, uploadOk, n - 1);
      var before := ListAfter(files, uploadOk, n - 1);
      if uploadOk(n - 1) {
        assert ListAfter(files, uploadOk, n) == Filter(before, NameIsNot(files[n - 1].name));
        CompletedStep(files, uploadOk, n, before);
      } else {
        assert Completed(files, uploadOk, n) == Completed(files, uploadOk, n - 1);
      }
    }
  }

  /** A completed upload adds its name to the filtered-out names. */
  lemma CompletedStep(files: seq<LocalFile>, uploadOk: nat -> bool, n: nat, before: seq<LocalFile>)
    requires 0 < n <= |files| && uploadOk(n - 1)
    requires before == Filter(files, NameNotIn(Completed(files, uploadOk, n - 1)))
    ensures Filter(before, NameIsNot(files[n - 1].name)) == Filter(files, NameNotIn(Completed(files, uploadOk, n)))
  {
    var done := Completed(files, uploadOk, n - 1);
    assert Completed(files, uploadOk, n) == done + {files[n - 1].name};
    FilterFilter(files, NameNotIn(done), NameIsNot(files[n - 1].name), NameNotIn(done + {files[n - 1].name}));
  }

  datatype UploadRun =
    | FolderWarning     // no folder chosen: the warning is shown, nothing is sent
    | NothingToUpload   // no file listed: nothing happens
    | Drained(sent: seq<LocalFile>, queue: seq<LocalFile>, list: seq<LocalFile>)

  method HandleUpload(selectedFolder: string, files: seq<LocalFile>, uploadOk: nat -> bool) returns (r: UploadRun)
    ensures selectedFolder == "" ==> r == FolderWarning
    ensures selectedFolder != "" && files == [] ==> r == NothingToUpload
    ensures selectedFolder != "" && files != [] ==>
      && r.Drained?
      && r.sent == files[..DrainCount(uploadOk, |files|)]
      && r.queue == files[DrainCount(uploadOk, |files|)..]
      && r.list == ListAfter(files, uploadOk, DrainCount(uploadOk, |files|))
  {
    if selectedFolder == "" {
      return FolderWarning;
    }
    if |files| == 0 {
      return NothingToUpload;
    }
    var n, queue, list := RunRunners(files, uploadOk);
    return Drained(files[..n], queue, list);
  }

  /** The four `runner`s taking turns on the shared queue: a turn shifts a
      file off the queue and uploads it; a completed upload filters the name
      out of the list and the runner goes on, a failed one stops it. */
  method RunRunners(files: seq<LocalFile>, uploadOk: nat -> bool) returns (n: nat, queue: seq<LocalFile>, list: seq<LocalFile>)
    ensures n == DrainCount(uploadOk, |files|)
    ensures queue == files[n..]
    ensures list == ListAfter(files, uploadOk, n)
  {
    queue := files;
    n := 0;
    var alive := Concurrency;
    list := files;
    while queue != [] && alive > 0
      invariant n <= |files| && queue == files[n..]
      invariant alive == Concurrency - Failures(uploadOk, n)
      invariant n == 0 || Failures(uploadOk, n - 1) < Concurrency
      invariant list == ListAfter(files, uploadOk, n)
      decreases |queue|
    {
      var file := queue[0];
      queue := queue[1..];
      if uploadOk(n) {
        list := Filter(list, NameIsNot(file.name));
      } else {
        alive := alive - 1;
      }
      n := n + 1;
    }
    DrainCountIs(uploadOk, |files|, n);
  }

  lemma DrainCountIs(uploadOk: nat -> bool, total: nat, m: nat)
    requires m <= total
    requires m == 0 || Failures(uploadOk, m - 1) < Concurrency
    requires m < total ==> Failures(uploadOk, m) >= Concurrency
    ensures DrainCount(uploadOk, total) == m
  {
    if m > 0 {
      FailuresMonotone(uploadOk, m - 1);
    }
  }

  /** Fewer than four failures: every listed file is dequeued exactly once, in
      list order, and the queue ends empty. */
  lemma DrainsEverything(uploadOk: nat -> bool, files: seq<LocalFile>)
    requires Failures(uploadOk, |files|) < Concurrency
    ensures DrainCount(uploadOk, |files|) == |files|
  {
    FailuresMonotone(uploadOk, |files|);
  }

  /** A drain that stops early stops at the fourth failure, which is the last
      file dequeued. */
  lemma DrainStopsAtFourthFailure(uploadOk: nat -> bool, total: nat)
    requires DrainCount(uploadOk, total) < total
    ensures var m := DrainCount(uploadOk, total);
      m >= 1 && Failures(uploadOk, m) == Concurrency && !uploadOk(m - 1)
  {
  }

  lemma {:induction false} FailuresMonotone(uploadOk: nat -> bool, n: nat)
    ensures forall j :: 0 <= j <= n ==> Failures(uploadOk, j) <= Failures(uploadOk, n)
    decreases n
  {
    if n > 0 {
      FailuresMonotone(uploadOk, n - 1);
    }
  }

  /** After the drain, a file is still listed exactly when no dequeued file
      of its name completed; in particular every completed file is gone. */
  lemma CompletedFilesLeave(files: seq<LocalFile>, uploadOk: nat -> bool, i: nat)
    requires i < DrainCount(uploadOk, |files|) && uploadOk(i)
    ensures files[i].name !in Names(ListAfter(files, uploadOk, DrainCount(uploadOk, |files|)))
  {
    ListAfterFilters(files, uploadOk, DrainCount(uploadOk, |files|));
    CompletedHas(files, uploadOk, DrainCount(uploadOk, |files|), i);
  }
}
