/** `check_large_files` (tools/build_data.py:151-173): for every registered asset, in the
    order `load_port` registered it, compare the digest of the whole file with the digest of
    its listed parts and choose one of four outcomes: report an error when neither exists,
    combine the parts when the whole file is missing, split the whole file when the digests
    differ, and leave both alone when they agree.

    The digest functions live in a helper module that is not part of this model; here a
    digest is any function `hash` of a byte sequence, and the digest of a part list is the
    digest of the parts read one after the other.  Reading a listed part that does not exist
    raises an exception nothing catches, which ends the whole run: `Run.aborted`. */
module Reconciler {
  import opened Text
  import opened PartNames
  import opened Chunking
  import opened Storage
  import opened Discovery

  /** The four outcomes for one asset. */
  datatype Action = Report | Combine | Split | Keep

  /** The decision of `check_large_files` from the digest of the whole file and the digest of
      the parts, each `None` when that representation is absent (tools/build_data.py:164-173). */
  function Decide<D(==)>(whole: Option<D>, parts: Option<D>): (a: Action)
    ensures a == Report <==> whole.None? && parts.None?
    ensures a == Combine <==> whole.None? && parts.Some?
    ensures a == Split <==> whole.Some? && whole != parts
    ensures a == Keep <==> whole.Some? && whole == parts
  {
    if whole == None && parts == None then Report
    else if whole == None then Combine
    else if whole != parts then Split
    else Keep
  }

  /** The message `error` records for an asset with neither representation. */
  const WUT: string := "Wut?"

  /** What the loop has done so far: the files, the error messages recorded for the port, and
      whether the run has died on a missing part. */
  datatype Run = Run(files: Files, errors: seq<string>, aborted: bool)

  /** `hash_file(name)` when `name` is a file. */
  function WholeDigest<D>(fs: Files, name: string, hash: seq<byte> -> D): Option<D> {
    if name in fs then Some(hash(fs[name])) else None
  }

  predicate AllPresent(fs: Files, parts: seq<string>) {
    forall p :: p in parts ==> p in fs
  }

  /** `hash_files(parts)` when the list is not empty: the digest of the parts read in list
      order. */
  function PartsDigest<D>(fs: Files, parts: seq<string>, hash: seq<byte> -> D): Option<D>
    requires AllPresent(fs, parts)
  {
    if |parts| > 0 then Some(hash(Concat(Contents(fs, parts)))) else None
  }

  /** One iteration of the loop, for the asset `name` with part list `parts`. */
  function Step<D(==)>(st: Run, name: string, parts: seq<string>, hash: seq<byte> -> D,
                       chunk: nat, block: nat): (after: Run)
    requires name !in parts && 0 < chunk && 0 < block
    ensures after.aborted <==> st.aborted || !AllPresent(st.files, parts)
    ensures st.aborted ==> after == st
    ensures after.errors == st.errors ||
            (after.errors == st.errors + [WUT] && name !in st.files && parts == [])
  {
    if st.aborted then st
    else if !AllPresent(st.files, parts) then st.(aborted := true)
    else
      match Decide(WholeDigest(st.files, name, hash), PartsDigest(st.files, parts, hash))
      case Report => st.(errors := st.errors + [WUT])
      case Combine => st.(files := st.files[name := Concat(Contents(st.files, parts))])
      case Split => st.(files := SplitFiles(st.files, name, chunk, block))
      case Keep => st
  }

  /** Every asset in the order has a part list, and is not one of its own parts. */
  ghost predicate Listed(r: Registry) {
    forall k :: k in r.order ==> k in r.lists && k !in r.lists[k]
  }

  /** A registry from the scan is listed: a part's path is longer than its base. */
  lemma WellFormedListed(r: Registry)
    requires WellFormed(r)
    ensures Listed(r)
  {
    forall k | k in r.order
      ensures k in r.lists && k !in r.lists[k]
    {
      if k in r.lists[k] {
        PartBaseShape(k);
      }
    }
  }

  /** The loop after the first `n` assets of the registry. */
  function ReconcileFirst<D(==)>(st: Run, r: Registry, n: nat, hash: seq<byte> -> D,
                                 chunk: nat, block: nat): Run
    requires Listed(r) && n <= |r.order| && 0 < chunk && 0 < block
  {
    if n == 0 then st
    else
      var name := r.order[n - 1];
      Step(ReconcileFirst(st, r, n - 1, hash, chunk, block), name, r.lists[name], hash, chunk, block)
  }

  /** `check_large_files(port_dir, large_files)` on the disk.  Returns the error messages
      recorded for the port and whether the run died on a missing part. */
  method Reconcile<D(==)>(disk: Disk, r: Registry, hash: seq<byte> -> D, chunk: nat, block: nat)
    returns (errors: seq<string>, aborted: bool)
    requires Listed(r) && 0 < chunk && 0 < block
    modifies disk
    ensures Run(disk.files, errors, aborted) ==
      ReconcileFirst(Run(old(disk.files), [], false), r, |r.order|, hash, chunk, block)
  {
    ghost var st0 := Run(disk.files, [], false);
    errors := [];
    aborted := false;
    var i := 0;
    while i < |r.order|
      invariant 0 <= i <= |r.order|
      invariant Run(disk.files, errors, false) == ReconcileFirst(st0, r, i, hash, chunk, block)
    {
      var name := r.order[i];
      ReconcileFirstNext(st0, r, i, hash, chunk, block);
      ghost var next := ReconcileFirst(st0, r, i + 1, hash, chunk, block);
      errors, aborted := ReconcileAsset(disk, errors, name, r.lists[name], hash, chunk, block);
      assert Run(disk.files, errors, aborted) == next;
      if aborted {
        AbortedStays(st0, r, i + 1, |r.order|, hash, chunk, block);
        return;
      }
      i := i + 1;
    }
  }

  /** The body of the loop of `check_large_files` for the asset `name`: digests its parts
      (dying on a missing one) and its whole file, then reports, combines, splits or does
      nothing as `Decide` says. */
  method ReconcileAsset<D(==)>(disk: Disk, errors: seq<string>, name: string, parts: seq<string>,
                               hash: seq<byte> -> D, chunk: nat, block: nat)
    returns (errorsAfter: seq<string>, aborted: bool)
    requires name !in parts && 0 < chunk && 0 < block
    modifies disk
    ensures Run(disk.files, errorsAfter, aborted) ==
      Step(Run(old(disk.files), errors, false), name, parts, hash, chunk, block)
  {
    errorsAfter, aborted := errors, false;
    var partsDigest: Option<D> := None;
    if |parts| > 0 {
      if exists p :: p in parts && p !in disk.files {
        aborted := true;
        return;
      }
      partsDigest := Some(hash(Concat(Contents(disk.files, parts))));
    }
    var wholeDigest: Option<D> := None;
    if name in disk.files {
      wholeDigest := Some(hash(disk.files[name]));
    }
    match Decide(wholeDigest, partsDigest) {
      case Report =>
        errorsAfter := errors + [WUT];
      case Combine =>
        disk.Combine(name, parts, block);
      case Split =>
        disk.Split(name, chunk, block);
      case Keep =>
    }
  }

  lemma ReconcileFirstNext<D>(st: Run, r: Registry, n: nat, hash: seq<byte> -> D, chunk: nat, block: nat)
    requires Listed(r) && n < |r.order| && 0 < chunk && 0 < block
    ensures r.order[n] in r.lists && r.order[n] !in r.lists[r.order[n]]
    ensures ReconcileFirst(st, r, n + 1, hash, chunk, block) ==
      Step(ReconcileFirst(st, r, n, hash, chunk, block), r.order[n], r.lists[r.order[n]], hash, chunk, block)
  {
  }

  /** Once the run has died, later assets change nothing. */
  lemma {:induction false} AbortedStays<D>(st: Run, r: Registry, n: nat, m: nat,
                                               hash: seq<byte> -> D, chunk: nat, block: nat)
    requires Listed(r) && n <= m <= |r.order| && 0 < chunk && 0 < block
    requires ReconcileFirst(st, r, n, hash, chunk, block).aborted
    ensures ReconcileFirst(st, r, m, hash, chunk, block) == ReconcileFirst(st, r, n, hash, chunk, block)
    decreases m
  {
    if n < m {
      AbortedStays(st, r, n, m - 1, hash, chunk, block);
    }
  }

  /* ---------------------------------------------------------------- one asset */

  /** An asset with neither representation gets one error and changes nothing; the loop
      goes on to the next asset. */
  lemma ReportContinues<D>(st: Run, name: string, parts: seq<string>, hash: seq<byte> -> D,
                               chunk: nat, block: nat)
    requires name !in parts && 0 < chunk && 0 < block && !st.aborted
    requires name !in st.files && parts == []
    ensures Step(st, name, parts, hash, chunk, block) == Run(st.files, st.errors + [WUT], false)
  {
  }

  /** The paths that hold an asset after its step: the listed parts, or the new chain when
      the step split the whole file. */
  function PartsAfter<D(==)>(st: Run, name: string, parts: seq<string>, hash: seq<byte> -> D,
                             chunk: nat, block: nat): seq<string>
    requires 0 < chunk && 0 < block && AllPresent(st.files, parts)
  {
    if Decide(WholeDigest(st.files, name, hash), PartsDigest(st.files, parts, hash)) == Split
    then ChainNames(name, PartCount(st.files, name, chunk, block))
    else parts
  }

  /** After the step for an asset that has a representation, both representations exist and
      agree: the digest of the whole file is the digest of its parts.  When the step rewrote
      one of them (combine or split), they agree byte for byte. */
  lemma StepReconciles<D>(st: Run, name: string, parts: seq<string>, hash: seq<byte> -> D,
                              chunk: nat, block: nat)
    requires name !in parts && 0 < chunk && 0 < block && !st.aborted
    requires AllPresent(st.files, parts) && (name in st.files || parts != [])
    ensures var after := Step(st, name, parts, hash, chunk, block);
      var a := Decide(WholeDigest(st.files, name, hash), PartsDigest(st.files, parts, hash));
      var chain := PartsAfter(st, name, parts, hash, chunk, block);
      !after.aborted && after.errors == st.errors &&
      name in after.files && AllPresent(after.files, chain) &&
      |chain| > 0 &&
      hash(after.files[name]) == hash(Concat(Contents(after.files, chain))) &&
      (a != Keep ==> after.files[name] == Concat(Contents(after.files, chain)))
  {
    var a := Decide(WholeDigest(st.files, name, hash), PartsDigest(st.files, parts, hash));
    var after := Step(st, name, parts, hash, chunk, block);
    match a
    case Combine =>
      assert Contents(after.files, parts) == Contents(st.files, parts);
    case Split =>
      SplitRoundTrip(st.files, name, chunk, block);
    case Keep =>
    case Report =>
  }

  /** Combining makes the digests agree, so the same asset is left alone the next time. */
  lemma CombineThenKeep<D>(st: Run, name: string, parts: seq<string>, hash: seq<byte> -> D,
                               chunk: nat, block: nat)
    requires name !in parts && 0 < chunk && 0 < block && !st.aborted
    requires AllPresent(st.files, parts) && name !in st.files && parts != []
    ensures var after := Step(st, name, parts, hash, chunk, block);
      AllPresent(after.files, parts) &&
      Decide(WholeDigest(after.files, name, hash), PartsDigest(after.files, parts, hash)) == Keep &&
      Step(after, name, parts, hash, chunk, block) == after
  {
    var after := Step(st, name, parts, hash, chunk, block);
    assert Contents(after.files, parts) == Contents(st.files, parts);
  }

  /** An empty stale part listed after the parts of an asset changes nothing in the digest of
      the parts: when the whole file is the concatenation of the others, the asset is kept and
      the stale part stays. */
  lemma EmptyStalePartKept<D>(fs: Files, name: string, parts: seq<string>, stale: string,
                              hash: seq<byte> -> D)
    requires AllPresent(fs, parts) && stale in fs && fs[stale] == [] && name in fs
    requires fs[name] == Concat(Contents(fs, parts))
    ensures AllPresent(fs, parts + [stale])
    ensures Decide(WholeDigest(fs, name, hash), PartsDigest(fs, parts + [stale], hash)) == Keep
  {
    assert Contents(fs, parts + [stale]) == Contents(fs, parts) + [[]];
    ConcatAppend(Contents(fs, parts), []);
    assert Concat(Contents(fs, parts) + [[]]) == fs[name];
    assert PartsDigest(fs, parts + [stale], hash) == Some(hash(fs[name]));
  }

  /** The step for one asset leaves every listed part of every other registered asset in
      place: a split removes only a part of its own asset. */
  lemma StepKeepsOtherParts<D>(st: Run, r: Registry, name: string, hash: seq<byte> -> D,
                                   chunk: nat, block: nat, k: string)
    requires WellFormed(r) && name in r.lists && k in r.lists && k != name
    requires 0 < chunk && 0 < block && AllPresent(st.files, r.lists[k])
    requires name !in r.lists[name]
    ensures AllPresent(Step(st, name, r.lists[name], hash, chunk, block).files, r.lists[k])
  {
    var parts := r.lists[name];
    if !st.aborted && AllPresent(st.files, parts) {
      var a := Decide(WholeDigest(st.files, name, hash), PartsDigest(st.files, parts, hash));
      if a == Split {
        var q := PartName(name, PartCount(st.files, name, chunk, block) + 1);
        forall p | p in r.lists[k]
          ensures p in SplitFiles(st.files, name, chunk, block)
        {
          PartNameParses(name, PartCount(st.files, name, chunk, block) + 1);
          assert PartBase(p) == Some(k);
          SplitKeepsPaths(st.files, name, chunk, block, p);
        }
      }
    }
  }

  /** A registry from the scan whose listed parts all exist is reconciled without the run
      dying: every asset's parts are still in place when its turn comes. */
  lemma NeverAborts<D>(st: Run, r: Registry, hash: seq<byte> -> D, chunk: nat, block: nat)
    requires WellFormed(r) && 0 < chunk && 0 < block && !st.aborted
    requires forall k :: k in r.lists ==> AllPresent(st.files, r.lists[k])
    ensures Listed(r) && !ReconcileFirst(st, r, |r.order|, hash, chunk, block).aborted
  {
    WellFormedListed(r);
    PartsStayPresent(st, r, |r.order|, hash, chunk, block);
  }

  lemma {:induction false} PartsStayPresent<D>(st: Run, r: Registry, n: nat,
                                                   hash: seq<byte> -> D, chunk: nat, block: nat)
    requires WellFormed(r) && n <= |r.order| && 0 < chunk && 0 < block && !st.aborted
    requires forall k :: k in r.lists ==> AllPresent(st.files, r.lists[k])
    ensures Listed(r)
    ensures var cur := ReconcileFirst(st, r, n, hash, chunk, block);
      !cur.aborted && forall i :: n <= i < |r.order| ==> AllPresent(cur.files, r.lists[r.order[i]])
  {
    WellFormedListed(r);
    if n > 0 {
      PartsStayPresent(st, r, n - 1, hash, chunk, block);
      var prev := ReconcileFirst(st, r, n - 1, hash, chunk, block);
      var name := r.order[n - 1];
      forall i | n <= i < |r.order|
        ensures AllPresent(ReconcileFirst(st, r, n, hash, chunk, block).files, r.lists[r.order[i]])
      {
        StepKeepsOtherParts(prev, r, name, hash, chunk, block, r.order[i]);
      }
    }
  }
}
