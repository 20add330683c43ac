/** How `split_large_files` (tools/build_data.py:113-130) cuts a byte stream into parts.
    Each part is filled by reads of at most `block` bytes while it holds fewer than `chunk`
    bytes, so a full part holds `Capacity(chunk, block)` bytes: the least multiple of the
    read size that reaches `chunk`.  The loop that performs the reads is `Disk.Split`;
    this module gives the parts it produces as a function of the source bytes. */
module Chunking {

  newtype byte = x: int | 0 <= x < 256

  /** The size of one `read` (tools/build_data.py:123, 143). */
  const BLOCK_SIZE: nat := 1024 * 1024
  /** The part size bound (tools/build_data.py:32). */
  const CHUNK_SIZE: nat := 1024 * 1024 * 50

  function Min(a: nat, b: nat): nat {
    if a <= b then a else b
  }

  /** The bytes of the parts one after the other: what `combine_large_files` writes. */
  function Concat(ps: seq<seq<byte>>): seq<byte> {
    if ps == [] then [] else ps[0] + Concat(ps[1..])
  }

  lemma {:induction false} ConcatAppend(ps: seq<seq<byte>>, p: seq<byte>)
    ensures Concat(ps + [p]) == Concat(ps) + p
  {
    if ps != [] {
      assert (ps + [p])[1..] == ps[1..] + [p];
      ConcatAppend(ps[1..], p);
    }
  }

  /* ---------------------------------------------------------------- arithmetic */

  /** The number of bytes a part receives when the source does not run out first: the least
      multiple of the read size that reaches `chunk`. */
  function Capacity(chunk: nat, block: nat): (r: nat)
    requires 0 < chunk && 0 < block
    ensures chunk <= r < chunk + block
    decreases chunk
  {
    if chunk <= block then block else block + Capacity(chunk - block, block)
  }

  lemma MulMono(x: nat, y: nat, b: nat)
    requires x <= y
    ensures x * b <= y * b
  {
  }

  /** Capacity is a whole number of reads. */
  lemma {:induction false} CapacityReads(chunk: nat, block: nat)
    requires 0 < chunk && 0 < block
    ensures Capacity(chunk, block) % block == 0
    decreases chunk
  {
    if chunk > block {
      CapacityReads(chunk - block, block);
      DivStep(Capacity(chunk, block), block);
    }
  }

  /** After `j` full reads below `chunk`, one more full read still fits in the part. */
  lemma {:induction false} BelowCapacity(j: nat, chunk: nat, block: nat)
    requires 0 < chunk && 0 < block && j * block < chunk
    ensures (j + 1) * block <= Capacity(chunk, block)
    decreases chunk
  {
    if chunk > block && j > 0 {
      BelowCapacity(j - 1, chunk - block, block);
    }
  }

  /** Full reads that reach `chunk` have filled the part to its capacity. */
  lemma {:induction false} ReachesCapacity(j: nat, chunk: nat, block: nat)
    requires 0 < chunk && 0 < block && chunk <= j * block
    ensures Capacity(chunk, block) <= j * block
    decreases chunk
  {
    if chunk > block {
      ReachesCapacity(j - 1, chunk - block, block);
    }
  }

  /** When `chunk` is a multiple of the read size, as 50 MiB is of 1 MiB, a full part holds
      exactly `chunk` bytes. */
  lemma {:induction false} ExactCapacity(chunk: nat, block: nat)
    requires 0 < chunk && 0 < block && chunk % block == 0
    ensures Capacity(chunk, block) == chunk
    decreases chunk
  {
    if chunk < block {
      DivMod(chunk, block, 0, chunk);
    } else if chunk > block {
      DivStep(chunk, block);
      ExactCapacity(chunk - block, block);
    }
  }

  lemma DivMod(n: nat, c: nat, q: nat, r: nat)
    requires 0 < c && n == q * c + r && r < c
    ensures n / c == q && n % c == r
  {
    var q', r' := n / c, n % c;
    assert n == q' * c + r';
    if q' < q { MulMono(q' + 1, q, c); }
    if q < q' { MulMono(q + 1, q', c); }
  }

  /* ---------------------------------------------------------------- the parts */

  /** The contents of the parts `split_large_files` writes for source bytes `s`, in index
      order, when a full part holds `size` bytes (`Capacity(chunk, block)`, at least `chunk`).
      A part that reached `chunk` bytes is followed by another, so a source that fills its
      last part exactly ends with an empty part. */
  function Parts(s: seq<byte>, chunk: nat, size: nat): (ps: seq<seq<byte>>)
    requires 0 < chunk <= size
    ensures |ps| >= 1
    decreases |s|
  {
    var k := Min(|s|, size);
    if k < chunk then [s] else [s[..k]] + Parts(s[k..], chunk, size)
  }

  /** Round trip: the parts, concatenated in index order, are the source bytes. */
  lemma {:induction false} PartsConcat(s: seq<byte>, chunk: nat, size: nat)
    requires 0 < chunk <= size
    ensures Concat(Parts(s, chunk, size)) == s
    decreases |s|
  {
    var k := Min(|s|, size);
    var ps := Parts(s, chunk, size);
    if k < chunk {
      assert ps == [s];
      assert Concat(ps) == s + Concat([]);
    } else {
      PartsConcat(s[k..], chunk, size);
      assert ps[1..] == Parts(s[k..], chunk, size);
      assert s == s[..k] + s[k..];
    }
  }

  /** Every part but the last holds between `chunk` and `size` bytes; the last holds fewer
      than `chunk`. */
  lemma {:induction false} PartSizes(s: seq<byte>, chunk: nat, size: nat)
    requires 0 < chunk <= size
    ensures var ps := Parts(s, chunk, size);
      (forall i :: 0 <= i < |ps| - 1 ==> chunk <= |ps[i]| <= size) &&
      |ps[|ps| - 1]| < chunk
    decreases |s|
  {
    var k := Min(|s|, size);
    if k >= chunk {
      PartSizes(s[k..], chunk, size);
      var ps := Parts(s, chunk, size);
      assert ps[1..] == Parts(s[k..], chunk, size);
      assert forall i :: 1 <= i < |ps| ==> ps[i] == ps[1..][i - 1];
    }
  }

  /** With `chunk` a multiple of the read size a full part holds exactly `chunk` bytes:
      there are `|s| / chunk + 1` parts, every part but the last holds `chunk` bytes, and the
      last holds the `|s| % chunk` trailing bytes, so it is empty exactly when `chunk` divides
      `|s|` (an empty source gives one empty part). */
  lemma ExactParts(s: seq<byte>, chunk: nat, block: nat)
    requires 0 < chunk && 0 < block && chunk % block == 0
    ensures var ps := Parts(s, chunk, Capacity(chunk, block));
      |ps| == |s| / chunk + 1 &&
      (forall i :: 0 <= i < |ps| - 1 ==> |ps[i]| == chunk) &&
      ps[|ps| - 1] == s[|s| - |s| % chunk..]
  {
    ExactCapacity(chunk, block);
    PartSizes(s, chunk, chunk);
    ExactCountAndLast(s, chunk);
  }

  lemma {:induction false} ExactCountAndLast(s: seq<byte>, chunk: nat)
    requires 0 < chunk
    ensures var ps := Parts(s, chunk, chunk);
      |ps| == |s| / chunk + 1 && ps[|ps| - 1] == s[|s| - |s| % chunk..]
    decreases |s|
  {
    var ps := Parts(s, chunk, chunk);
    if |s| < chunk {
      DivMod(|s|, chunk, 0, |s|);
    } else {
      var rest := s[chunk..];
      ExactCountAndLast(rest, chunk);
      assert ps == [s[..chunk]] + Parts(rest, chunk, chunk);
      DivStep(|s|, chunk);
      assert rest[|rest| - |rest| % chunk..] == s[|s| - |s| % chunk..];
    }
  }

  lemma DivStep(n: nat, c: nat)
    requires 0 < c <= n
    ensures n / c == (n - c) / c + 1 && n % c == (n - c) % c
  {
    var q, r := (n - c) / c, (n - c) % c;
    assert n - c == q * c + r;
    DivMod(n, c, q + 1, r);
  }

  /** A 120 MiB source with the 50 MiB bound is written as three parts of 50, 50 and 20 MiB. */
  lemma Split120MiB(s: seq<byte>)
    requires |s| == 120 * 1024 * 1024
    ensures var ps := Parts(s, CHUNK_SIZE, Capacity(CHUNK_SIZE, BLOCK_SIZE));
      |ps| == 3 && |ps[0]| == CHUNK_SIZE && |ps[1]| == CHUNK_SIZE && |ps[2]| == 20 * 1024 * 1024
  {
    ExactParts(s, CHUNK_SIZE, BLOCK_SIZE);
    DivMod(|s|, CHUNK_SIZE, 2, 20 * 1024 * 1024);
  }
}
