/** The byte rewrite of corruptFile.py: every byte of the file content is
    shifted by 100 modulo 256, visiting the positions in the order of a
    random sample that covers all of them. */
module CorruptFile {

  newtype byte = x: int | 0 <= x < 256

  const Variant := 100

  /** `(b + variant) % 256` */
  function Shift(b: byte): (r: byte)
    ensures r as int == (b as int + Variant) % 256
  {
    ((b as int + Variant) % 256) as byte
  }

  /** Shifting by the rest of 256 undoes the shift. */
  function Unshift(b: byte): byte
  {
    ((b as int + 256 - Variant) % 256) as byte
  }

  lemma ShiftInverse(b: byte)
    ensures Unshift(Shift(b)) == b
    ensures Shift(Unshift(b)) == b
  {
  }

  /** Every byte of `s` shifted. */
  function ShiftAll(s: seq<byte>): (r: seq<byte>)
    ensures |r| == |s|
    ensures forall j :: 0 <= j < |s| ==> r[j] == Shift(s[j])
  {
    if s == [] then [] else [Shift(s[0])] + ShiftAll(s[1..])
  }

  /** `victims` lists every position of a buffer of length `n` exactly once:
      what `random.sample(range(n), n)` returns. */
  predicate Permutation(victims: seq<nat>, n: nat)
  {
    |victims| == n
    && (forall i :: 0 <= i < |victims| ==> victims[i] < n)
    && (forall i, j :: 0 <= i < j < |victims| ==> victims[i] != victims[j])
  }

  /** The loop `for v in victims: file_content[v] = ...` on a value. */
  function Rewrite(s: seq<byte>, victims: seq<nat>): (r: seq<byte>)
    requires forall i :: 0 <= i < |victims| ==> victims[i] < |s|
    ensures |r| == |s|
  {
    if victims == [] then s
    else
      var v := victims[|victims| - 1];
      var before := Rewrite(s, victims[..|victims| - 1]);
      before[v := Shift(before[v])]
  }

  /** With distinct positions, each listed byte is shifted once and the
      others are left alone, whatever the order of the list. */
  lemma {:induction false} RewritePointwise(s: seq<byte>, victims: seq<nat>)
    requires forall i :: 0 <= i < |victims| ==> victims[i] < |s|
    requires forall i, j :: 0 <= i < j < |victims| ==> victims[i] != victims[j]
    ensures forall j :: 0 <= j < |s| ==>
      Rewrite(s, victims)[j] == if j in victims then Shift(s[j]) else s[j]
    decreases |victims|
  {
    if victims != [] {
      var p := victims[..|victims| - 1];
      RewritePointwise(s, p);
      assert victims == p + [victims[|victims| - 1]];
    }
  }

  /** A permutation of all positions shifts every byte. */
  lemma RewritePermutation(s: seq<byte>, victims: seq<nat>)
    requires Permutation(victims, |s|)
    ensures Rewrite(s, victims) == ShiftAll(s)
  {
    RewritePointwise(s, victims);
    forall j | 0 <= j < |s| ensures j in victims {
      CoversAll(victims, |s|, j);
    }
  }

  /** The final content does not depend on the order of the sample. */
  lemma OrderIndependent(s: seq<byte>, a: seq<nat>, b: seq<nat>)
    requires Permutation(a, |s|) && Permutation(b, |s|)
    ensures Rewrite(s, a) == Rewrite(s, b)
  {
    RewritePermutation(s, a);
    RewritePermutation(s, b);
  }

  /** `n` distinct positions below `n` include every position: the
      pigeonhole principle on a finite range. */
  lemma CoversAll(victims: seq<nat>, n: nat, j: nat)
    requires Permutation(victims, n) && j < n
    ensures j in victims
  {
    var vs := set i | 0 <= i < |victims| :: victims[i];
    assert |vs| == n by {
      DistinctSetSize(victims);
    }
    var range := Below(n);
    assert vs <= range;
    if j !in vs {
      assert vs <= range - {j};
      SubsetSize(vs, range - {j});
      assert false;
    }
  }

  lemma {:induction false} DistinctSetSize(victims: seq<nat>)
    requires forall i, j :: 0 <= i < j < |victims| ==> victims[i] != victims[j]
    ensures |set i | 0 <= i < |victims| :: victims[i]| == |victims|
    decreases |victims|
  {
    if victims != [] {
      var p := victims[..|victims| - 1];
      DistinctSetSize(p);
      var x := victims[|victims| - 1];
      var sp := set i | 0 <= i < |p| :: p[i];
      assert (set i | 0 <= i < |victims| :: victims[i]) == sp + {x};
      assert x !in sp;
    }
  }

  /** The positions `0..n-1`. */
  function Below(n: nat): (r: set<nat>)
    ensures forall k: nat :: k in r <==> k < n
    ensures |r| == n
  {
    if n == 0 then {} else Below(n - 1) + {n - 1}
  }

  lemma SubsetSize(a: set<nat>, b: set<nat>)
    requires a <= b
    ensures |a| <= |b|
  {
    assert b == a + (b - a);
  }

  /** `corrupt`: the buffer is rewritten in place, one sampled position at
      a time. */
  method Corrupt(content: array<byte>, victims: seq<nat>)
    requires Permutation(victims, content.Length)
    modifies content
    ensures content[..] == Rewrite(old(content[..]), victims)
    ensures content[..] == ShiftAll(old(content[..]))
  {
    ghost var original := content[..];
    for i := 0 to |victims|
      invariant content[..] == Rewrite(original, victims[..i])
    {
      var v := victims[i];
      assert victims[..i + 1][..i] == victims[..i];
      content[v] := Shift(content[v]);
    }
    assert victims[..|victims|] == victims;
    RewritePermutation(original, victims);
  }
}
