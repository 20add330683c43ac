/** The files of a port directory and the two operations of tools/build_data.py that
    rewrite them: `split_large_files` (lines 113-135) and `combine_large_files`
    (lines 138-148).  A file system is a map from paths to contents; `Disk` holds one and
    its methods change it the way the Python functions do, read by read.  The functions
    `WriteParts` and `SplitFiles` give the resulting file system as a value, and the lemmas
    state what the split promises: the parts rejoin to the source, nothing else changes,
    and splitting again changes nothing. */
module Storage {
  import opened PartNames
  import opened Chunking

  type Files = map<string, seq<byte>>

  /** The contents of the files `paths`, in the order given. */
  function Contents(fs: Files, paths: seq<string>): (r: seq<seq<byte>>)
    requires forall p :: p in paths ==> p in fs
    ensures |r| == |paths| && forall i :: 0 <= i < |paths| ==> r[i] == fs[paths[i]]
  {
    seq(|paths|, i requires 0 <= i < |paths| => fs[paths[i]])
  }

  /** The paths `<name>.part.001` up to `<name>.part.<n>`. */
  function ChainNames(name: string, n: nat): (r: seq<string>)
    ensures |r| == n && forall i :: 0 <= i < n ==> r[i] == PartName(name, i + 1)
  {
    seq(n, i requires 0 <= i => PartName(name, i + 1))
  }

  /** `fs` after part `k` of `name` has been written with `ps[k - 1]`, for k = 1, 2, ... */
  function WriteParts(fs: Files, name: string, ps: seq<seq<byte>>): Files
  {
    if ps == [] then fs
    else WriteParts(fs, name, ps[..|ps| - 1])[PartName(name, |ps|) := ps[|ps| - 1]]
  }

  /** The file system after `split_large_files` on `name`: the parts of its contents are
      written as parts 1..n, then the path of part n + 1 is removed if it exists. */
  function SplitFiles(fs: Files, name: string, chunk: nat, block: nat): Files
    requires name in fs && 0 < chunk && 0 < block
  {
    var ps := Parts(fs[name], chunk, Capacity(chunk, block));
    WriteParts(fs, name, ps) - {PartName(name, |ps| + 1)}
  }

  /** The number of parts the split of `name` writes. */
  function PartCount(fs: Files, name: string, chunk: nat, block: nat): nat
    requires name in fs && 0 < chunk && 0 < block
  {
    |Parts(fs[name], chunk, Capacity(chunk, block))|
  }

  lemma ChainNamesSnoc(name: string, n: nat)
    ensures ChainNames(name, n + 1) == ChainNames(name, n) + [PartName(name, n + 1)]
  {
    var a, b := ChainNames(name, n + 1), ChainNames(name, n) + [PartName(name, n + 1)];
    forall i | 0 <= i < n + 1
      ensures a[i] == b[i]
    {
      if i < n {
        assert b[i] == ChainNames(name, n)[i];
      }
    }
  }

  /** A path the chain does not name: writing the parts leaves it as it was. */
  lemma {:induction false} WriteLeavesOthers(fs: Files, name: string, ps: seq<seq<byte>>, p: string)
    requires p !in ChainNames(name, |ps|)
    ensures var w := WriteParts(fs, name, ps);
      (p in w <==> p in fs) && (p in fs ==> w[p] == fs[p])
  {
    if ps != [] {
      ChainNamesSnoc(name, |ps| - 1);
      WriteLeavesOthers(fs, name, ps[..|ps| - 1], p);
    }
  }

  /** Parts 1..|ps| of `name` are on disk and part j holds `ps[j - 1]`. */
  ghost predicate HoldsChain(fs: Files, name: string, ps: seq<seq<byte>>)
  {
    forall j :: 1 <= j <= |ps| ==> PartName(name, j) in fs && fs[PartName(name, j)] == ps[j - 1]
  }

  /** Writing the parts leaves each one on disk under its own part name. */
  lemma {:induction false} WriteHoldsChain(fs: Files, name: string, ps: seq<seq<byte>>)
    ensures HoldsChain(WriteParts(fs, name, ps), name, ps)
  {
    if ps != [] {
      var init := ps[..|ps| - 1];
      WriteHoldsChain(fs, name, init);
      var w0 := WriteParts(fs, name, init);
      var last := PartName(name, |ps|);
      var w := w0[last := ps[|ps| - 1]];
      assert WriteParts(fs, name, ps) == w;
      forall j | 1 <= j <= |ps|
        ensures PartName(name, j) in w && w[PartName(name, j)] == ps[j - 1]
      {
        if j < |ps| {
          if PartName(name, j) == last {
            PartNameInjective(name, j, name, |ps|);
          }
          assert PartName(name, j) in w0 && w0[PartName(name, j)] == init[j - 1];
          assert init[j - 1] == ps[j - 1];
        }
      }
    }
  }

  /** A chain on disk is read back, in index order, by `Contents` of its names. */
  lemma ChainContents(fs: Files, name: string, ps: seq<seq<byte>>)
    requires HoldsChain(fs, name, ps)
    ensures forall p :: p in ChainNames(name, |ps|) ==> p in fs
    ensures Contents(fs, ChainNames(name, |ps|)) == ps
  {
    var names := ChainNames(name, |ps|);
    forall i | 0 <= i < |ps|
      ensures names[i] in fs && fs[names[i]] == ps[i]
    {
      assert names[i] == PartName(name, i + 1);
    }
  }

  /** Part `j` is one of the first `n` chain names only when 1 <= j <= n. */
  lemma InChain(name: string, n: nat, j: nat)
    ensures PartName(name, j) in ChainNames(name, n) <==> 1 <= j <= n
  {
    if PartName(name, j) in ChainNames(name, n) {
      var k :| 0 <= k < n && ChainNames(name, n)[k] == PartName(name, j);
      PartNameInjective(name, k + 1, name, j);
    }
    if 1 <= j <= n {
      assert ChainNames(name, n)[j - 1] == PartName(name, j);
    }
  }

  /** The split leaves the source file as it was. */
  lemma SplitKeepsSource(fs: Files, name: string, chunk: nat, block: nat)
    requires name in fs && 0 < chunk && 0 < block
    ensures var after := SplitFiles(fs, name, chunk, block);
      name in after && after[name] == fs[name]
  {
    var n := PartCount(fs, name, chunk, block);
    InChain(name, n, 0);
    assert |name| < |PartName(name, n + 1)|;
    WriteLeavesOthers(fs, name, Parts(fs[name], chunk, Capacity(chunk, block)), name);
  }

  /** After the split, parts 1..n of `name` hold the parts of the source, in order, and the
      path of part n + 1 is absent. */
  lemma SplitHoldsChain(fs: Files, name: string, chunk: nat, block: nat)
    requires name in fs && 0 < chunk && 0 < block
    ensures var after := SplitFiles(fs, name, chunk, block);
      var ps := Parts(fs[name], chunk, Capacity(chunk, block));
      HoldsChain(after, name, ps) && PartName(name, |ps| + 1) !in after
  {
    var ps := Parts(fs[name], chunk, Capacity(chunk, block));
    var q := PartName(name, |ps| + 1);
    WriteHoldsChain(fs, name, ps);
    var w := WriteParts(fs, name, ps);
    forall j | 1 <= j <= |ps|
      ensures PartName(name, j) != q
    {
      if PartName(name, j) == q {
        PartNameInjective(name, j, name, |ps| + 1);
      }
    }
    assert SplitFiles(fs, name, chunk, block) == w - {q};
  }

  /** Every path outside parts 1..n + 1 of `name` is as it was before the split. */
  lemma SplitLeavesOthers(fs: Files, name: string, chunk: nat, block: nat, p: string)
    requires name in fs && 0 < chunk && 0 < block
    requires p !in ChainNames(name, PartCount(fs, name, chunk, block) + 1)
    ensures var after := SplitFiles(fs, name, chunk, block);
      (p in after <==> p in fs) && (p in fs ==> after[p] == fs[p])
  {
    var ps := Parts(fs[name], chunk, Capacity(chunk, block));
    ChainNamesSnoc(name, |ps|);
    WriteLeavesOthers(fs, name, ps, p);
  }

  /** The split removes no path but part n + 1 of `name`. */
  lemma SplitKeepsPaths(fs: Files, name: string, chunk: nat, block: nat, p: string)
    requires name in fs && 0 < chunk && 0 < block
    requires p in fs && p != PartName(name, PartCount(fs, name, chunk, block) + 1)
    ensures p in SplitFiles(fs, name, chunk, block)
  {
    var ps := Parts(fs[name], chunk, Capacity(chunk, block));
    if p in ChainNames(name, |ps|) {
      var i :| 0 <= i < |ps| && ChainNames(name, |ps|)[i] == p;
      SplitHoldsChain(fs, name, chunk, block);
      assert p == PartName(name, i + 1);
    } else {
      WriteLeavesOthers(fs, name, ps, p);
    }
  }

  /** Round trip: concatenating the parts a split leaves on disk, in index order, gives back
      the source bytes, which the split has left in place. */
  lemma SplitRoundTrip(fs: Files, name: string, chunk: nat, block: nat)
    requires name in fs && 0 < chunk && 0 < block
    ensures var after := SplitFiles(fs, name, chunk, block);
      var chain := ChainNames(name, PartCount(fs, name, chunk, block));
      name in after && (forall p :: p in chain ==> p in after) &&
      Concat(Contents(after, chain)) == fs[name] == after[name]
  {
    var ps := Parts(fs[name], chunk, Capacity(chunk, block));
    SplitKeepsSource(fs, name, chunk, block);
    SplitHoldsChain(fs, name, chunk, block);
    ChainContents(SplitFiles(fs, name, chunk, block), name, ps);
    PartsConcat(fs[name], chunk, Capacity(chunk, block));
  }

  /** The pruning step removes only part n + 1: a stale part numbered n + 2 or higher, left by
      an earlier split of a longer source, is still there, unchanged. */
  lemma StalePartsSurvive(fs: Files, name: string, chunk: nat, block: nat, j: nat)
    requires name in fs && 0 < chunk && 0 < block
    requires j > PartCount(fs, name, chunk, block) + 1 && PartName(name, j) in fs
    ensures var after := SplitFiles(fs, name, chunk, block);
      PartName(name, j) in after && after[PartName(name, j)] == fs[PartName(name, j)]
  {
    InChain(name, PartCount(fs, name, chunk, block) + 1, j);
    SplitLeavesOthers(fs, name, chunk, block, PartName(name, j));
  }

  /** Splitting is idempotent: splitting the same file again leaves the file system as the
      first split left it (same part count, same boundaries, same bytes). */
  lemma SplitIdempotent(fs: Files, name: string, chunk: nat, block: nat)
    requires name in fs && 0 < chunk && 0 < block
    ensures var once := SplitFiles(fs, name, chunk, block);
      name in once && SplitFiles(once, name, chunk, block) == once
  {
    var ps := Parts(fs[name], chunk, Capacity(chunk, block));
    var once := SplitFiles(fs, name, chunk, block);
    SplitKeepsSource(fs, name, chunk, block);
    SplitHoldsChain(fs, name, chunk, block);
    RewriteSame(once, name, ps);
    assert once - {PartName(name, |ps| + 1)} == once;
  }

  /** Writing parts that are already on disk with the same contents changes nothing. */
  lemma {:induction false} RewriteSame(fs: Files, name: string, ps: seq<seq<byte>>)
    requires HoldsChain(fs, name, ps)
    ensures WriteParts(fs, name, ps) == fs
  {
    if ps != [] {
      var init := ps[..|ps| - 1];
      assert HoldsChain(fs, name, init) by {
        forall j | 1 <= j <= |init|
          ensures PartName(name, j) in fs && fs[PartName(name, j)] == init[j - 1]
        {
          assert init[j - 1] == ps[j - 1];
        }
      }
      RewriteSame(fs, name, init);
      assert PartName(name, |ps|) in fs && fs[PartName(name, |ps|)] == ps[|ps| - 1];
      assert fs[PartName(name, |ps|) := ps[|ps| - 1]] == fs;
    }
  }

  /** Two file systems that agree on the source bytes receive identical chains. */
  lemma SplitDeterministic(fs1: Files, fs2: Files, name: string, chunk: nat, block: nat)
    requires name in fs1 && name in fs2 && fs1[name] == fs2[name] && 0 < chunk && 0 < block
    ensures var n := PartCount(fs1, name, chunk, block);
      var after1, after2 := SplitFiles(fs1, name, chunk, block), SplitFiles(fs2, name, chunk, block);
      n == PartCount(fs2, name, chunk, block) &&
      (forall p :: p in ChainNames(name, n) ==> p in after1 && p in after2) &&
      Contents(after1, ChainNames(name, n)) == Contents(after2, ChainNames(name, n))
  {
    var ps := Parts(fs1[name], chunk, Capacity(chunk, block));
    SplitHoldsChain(fs1, name, chunk, block);
    SplitHoldsChain(fs2, name, chunk, block);
    ChainContents(SplitFiles(fs1, name, chunk, block), name, ps);
    ChainContents(SplitFiles(fs2, name, chunk, block), name, ps);
  }

  /* ---------------------------------------------------------------- one part, read by read */

  /** One read while filling a part: `a` bytes are in the part, `a` is below `chunk`, and
      every read so far returned a full block unless the source ran out.  The read returns
      `n` more bytes, which still fit, and the same holds afterwards. */
  lemma ReadStep(total: nat, a: nat, full: nat, chunk: nat, block: nat)
    requires 0 < chunk && 0 < block && a < chunk && a < total
    requires a <= Min(total, Capacity(chunk, block))
    requires a == full * block || a == Min(total, Capacity(chunk, block))
    ensures var n := Min(block, total - a);
      var m := Min(total, Capacity(chunk, block));
      0 < n && a + n <= m && (a + n == (full + 1) * block || a + n == m)
  {
    if a != Min(total, Capacity(chunk, block)) {
      BelowCapacity(full, chunk, block);
    }
  }

  /** One part of the split: the part that stops filling at `pos` is the next element of
      `Parts`.  It stops because the source ran out below `chunk` (the last part), or because
      it reached `chunk` holding a full part's `size` bytes or the rest of the source,
      whichever is less. */
  lemma SplitProgress(src: seq<byte>, done: seq<seq<byte>>, start: nat, pos: nat,
                      finished: bool, chunk: nat, size: nat)
    requires 0 < chunk <= size && start <= pos <= |src|
    requires Parts(src, chunk, size) == done + Parts(src[start..], chunk, size)
    requires finished ==> pos == |src| && pos - start < chunk
    requires !finished ==> chunk <= pos - start == Min(|src| - start, size)
    ensures finished ==> Parts(src, chunk, size) == done + [src[start..pos]]
    ensures !finished ==>
      Parts(src, chunk, size) == (done + [src[start..pos]]) + Parts(src[pos..], chunk, size)
  {
    var s := src[start..];
    if finished {
      assert s == src[start..pos];
      LastPart(s, chunk, size);
      Regroup(Parts(src, chunk, size), done, Parts(s, chunk, size), [s], []);
    } else {
      FullPart(src, start, pos, chunk, size);
      Regroup(Parts(src, chunk, size), done, Parts(s, chunk, size), [src[start..pos]],
              Parts(src[pos..], chunk, size));
    }
  }

  lemma Regroup<T>(all: seq<T>, done: seq<T>, rest: seq<T>, next: seq<T>, after: seq<T>)
    requires all == done + rest && rest == next + after
    ensures all == (done + next) + after
  {
  }

  /** A part that stops filling because it reached `chunk` holds a full part's `size` bytes or
      the rest of the source, whichever is less: it is the first element of `Parts` of the
      rest. */
  lemma FullPart(src: seq<byte>, start: nat, pos: nat, chunk: nat, size: nat)
    requires 0 < chunk <= size && start <= pos <= |src|
    requires chunk <= pos - start == Min(|src| - start, size)
    ensures Parts(src[start..], chunk, size) == [src[start..pos]] + Parts(src[pos..], chunk, size)
  {
    var s := src[start..];
    assert s[..pos - start] == src[start..pos] && s[pos - start..] == src[pos..];
  }

  /** A part that stops filling because the source ran out below `chunk` is the last part. */
  lemma LastPart(s: seq<byte>, chunk: nat, size: nat)
    requires 0 < chunk <= size && |s| < chunk
    ensures Parts(s, chunk, size) == [s]
  {
  }

  /** A file system whose paths the Python functions open, read and write. */
  class Disk {
    var files: Files

    constructor (initial: Files)
      ensures files == initial
    {
      files := initial;
    }

    /** `split_large_files(port_dir, name, _)`: copies `name` into parts of at most `chunk`
        bytes (rounded up to whole reads of `block` bytes), then unlinks the next part path
        if it is a file. */
    method Split(name: string, chunk: nat, block: nat)
      requires name in files && 0 < chunk && 0 < block
      modifies this
      ensures files == SplitFiles(old(files), name, chunk, block)
    {
      ghost var fs0 := files;
      var src := files[name];
      var pos := 0;
      var partNumber := 0;
      var finished := false;
      ghost var size := Capacity(chunk, block);
      ghost var done: seq<seq<byte>> := [];
      assert src[pos..] == src;
      while !finished
        invariant 0 <= pos <= |src| && partNumber == |done|
        invariant !finished ==> Parts(src, chunk, size) == done + Parts(src[pos..], chunk, size)
        invariant finished ==> Parts(src, chunk, size) == done
        invariant files == WriteParts(fs0, name, done)
        decreases |src| - pos + (if finished then 0 else 1)
      {
        partNumber := partNumber + 1;
        ghost var start := pos;
        pos, finished := WritePart(PartName(name, partNumber), src, pos, chunk, block);
        SplitProgress(src, done, start, pos, finished, chunk, size);
        ghost var part := src[start..pos];
        assert (done + [part])[..|done|] == done;
        done := done + [part];
      }
      partNumber := partNumber + 1;
      ghost var written := files;
      while PartName(name, partNumber) in files
        invariant files == written || files == written - {PartName(name, partNumber)}
        decreases if PartName(name, partNumber) in files then 1 else 0
      {
        files := files - {PartName(name, partNumber)};
      }
      assert written - {PartName(name, partNumber)} == files;
    }

    /** The body of the `with open(part, 'wb')` block of `split_large_files`: truncates `part`
        and appends reads of `block` bytes from the source, starting at `start`, while the
        part holds fewer than `chunk` bytes.  `finished` is set when a read comes back empty.
        The bytes written are the first element of `Parts` of the rest of the source. */
    method WritePart(part: string, src: seq<byte>, start: nat, chunk: nat, block: nat)
      returns (pos: nat, finished: bool)
      requires start <= |src| && 0 < chunk && 0 < block
      modifies this
      ensures start <= pos <= |src|
      ensures files == old(files)[part := src[start..pos]]
      ensures finished ==> pos == |src| && pos - start < chunk
      ensures !finished ==> chunk <= pos - start == Min(|src| - start, Capacity(chunk, block))
    {
      ghost var fs0 := files;
      files := files[part := []];
      pos := start;
      finished := false;
      var dataAmount := 0;
      ghost var m := Min(|src| - start, Capacity(chunk, block));
      ghost var full := 0;
      assert src[start..pos] == [];
      while dataAmount < chunk
        invariant start <= pos <= |src| && dataAmount == pos - start && dataAmount <= m
        invariant dataAmount == full * block || dataAmount == m
        invariant files == fs0[part := src[start..pos]]
        invariant !finished
        decreases |src| - pos
      {
        var n := Min(block, |src| - pos);
        var data := src[pos..pos + n];
        if |data| == 0 {
          finished := true;
          break;
        }
        ReadStep(|src| - start, dataAmount, full, chunk, block);
        assert src[start..pos + n] == src[start..pos] + data;
        pos := pos + n;
        dataAmount := dataAmount + |data|;
        files := files[part := files[part] + data];
        full := if dataAmount == (full + 1) * block then full + 1 else full;
      }
      if !finished && dataAmount == full * block {
        ReachesCapacity(full, chunk, block);
      }
    }

    /** `combine_large_files(port_dir, name, parts)`: truncates `name`, then appends the
        contents of each listed part, in list order, read by read. */
    method Combine(name: string, parts: seq<string>, block: nat)
      requires 0 < block
      requires name !in parts
      requires forall p :: p in parts ==> p in files
      modifies this
      ensures files == old(files)[name := Concat(Contents(old(files), parts))]
    {
      ghost var fs0 := files;
      files := files[name := []];
      var i := 0;
      while i < |parts|
        invariant 0 <= i <= |parts|
        invariant files == fs0[name := Concat(Contents(fs0, parts[..i]))]
      {
        var src := files[parts[i]];
        var pos := 0;
        assert Concat(Contents(fs0, parts[..i])) + src[..pos] == Concat(Contents(fs0, parts[..i]));
        while true
          invariant 0 <= pos <= |src|
          invariant files == fs0[name := Concat(Contents(fs0, parts[..i])) + src[..pos]]
          decreases |src| - pos
        {
          var n := Min(block, |src| - pos);
          var data := src[pos..pos + n];
          pos := pos + n;
          if |data| == 0 {
            break;
          }
          assert src[..pos] == src[..pos - n] + data;
          ghost var before := Concat(Contents(fs0, parts[..i]));
          assert files[name] + data == before + src[..pos];
          files := files[name := files[name] + data];
        }
        assert src[..pos] == src == fs0[parts[i]];
        assert Contents(fs0, parts[..i + 1]) == Contents(fs0, parts[..i]) + [fs0[parts[i]]];
        ConcatAppend(Contents(fs0, parts[..i]), fs0[parts[i]]);
        i := i + 1;
      }
      assert parts[..i] == parts;
    }
  }
}
