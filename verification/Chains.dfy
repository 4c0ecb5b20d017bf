/** Cluster chains in a flat FAT, and the FAT as a disjoint union of chains. */
module Chains {
  import opened Common
  import opened FreeSpace

  const END_OF_CHAIN: u32 := 0x0fff_ffff

  /** Following the FAT from `s[0]` visits exactly the clusters of `s` and then meets the end mark. */
  ghost predicate IsChain(e: seq<u32>, s: seq<u32>) {
    && s != []
    && (forall i :: 0 <= i < |s| ==> 2 <= s[i] < |e|)
    && (forall i, j :: 0 <= i < j < |s| && j == i + 1 ==> e[s[i]] == s[j])
    && e[s[|s| - 1]] == END_OF_CHAIN
  }

  /** FAT32 cluster numbers have 28 bits, so no cluster of the FAT is numbered like the end mark. */
  ghost predicate FatSized(e: seq<u32>) {
    |e| <= END_OF_CHAIN
  }

  /** One step along a chain: the next cluster, or the end mark exactly behind the last one. */
  lemma ChainStep(e: seq<u32>, s: seq<u32>, k: nat)
    requires IsChain(e, s) && FatSized(e) && k < |s|
    ensures 2 <= s[k] < |e|
    ensures e[s[k]] == END_OF_CHAIN <==> k == |s| - 1
    ensures k < |s| - 1 ==> e[s[k]] == s[k + 1]
  {
    if k < |s| - 1 {
      assert s[k + 1] < |e|;
    }
  }

  lemma {:induction false} ChainSuffixesAgree(e: seq<u32>, s: seq<u32>, t: seq<u32>, i: nat, j: nat)
    requires IsChain(e, s) && IsChain(e, t) && FatSized(e)
    requires i < |s| && j < |t| && s[i] == t[j]
    ensures s[i..] == t[j..]
    decreases |s| - i
  {
    ChainStep(e, s, i);
    ChainStep(e, t, j);
    if i < |s| - 1 {
      ChainSuffixesAgree(e, s, t, i + 1, j + 1);
      assert s[i..] == [s[i]] + s[i + 1..] && t[j..] == [t[j]] + t[j + 1..];
    }
  }

  /** A chain that reaches the end mark never visits a cluster twice. */
  lemma ChainIsAcyclic(e: seq<u32>, s: seq<u32>)
    requires IsChain(e, s) && FatSized(e)
    ensures Distinct(s)
  {
    forall i, j | 0 <= i < j < |s|
      ensures s[i] != s[j]
    {
      if s[i] == s[j] {
        ChainSuffixesAgree(e, s, s, i, j);
        assert false;
      }
    }
  }

  /** The first cluster determines the chain, so any two readings of a file give the same page table. */
  lemma ChainUnique(e: seq<u32>, s: seq<u32>, t: seq<u32>)
    requires IsChain(e, s) && IsChain(e, t) && FatSized(e)
    requires s[0] == t[0]
    ensures s == t
  {
    ChainSuffixesAgree(e, s, t, 0, 0);
    assert s[0..] == s && t[0..] == t;
  }

  /** Two chains that share a cluster share everything after it, in particular their last cluster. */
  lemma SharedClusterSharedEnd(e: seq<u32>, s: seq<u32>, t: seq<u32>, c: u32)
    requires IsChain(e, s) && IsChain(e, t) && FatSized(e)
    requires c in s && c in t
    ensures s[|s| - 1] == t[|t| - 1]
  {
    var i :| 0 <= i < |s| && s[i] == c;
    var j :| 0 <= j < |t| && t[j] == c;
    ChainSuffixesAgree(e, s, t, i, j);
    assert s[i..][|s| - i - 1] == t[j..][|t| - j - 1];
  }

  lemma ChainClustersUsed(e: seq<u32>, s: seq<u32>)
    requires IsChain(e, s)
    ensures forall c :: c in s ==> 2 <= c < |e| && e[c] != 0
  {
    forall i | 0 <= i < |s|
      ensures e[s[i]] != 0
    {
      if i < |s| - 1 {
        assert e[s[i]] == s[i + 1];
      }
    }
  }

  ghost function Last(s: seq<u32>): u32
    requires s != []
  {
    s[|s| - 1]
  }

  /** Every file is a chain that starts where the file is filed. */
  ghost predicate AllChains(e: seq<u32>, files: map<u32, seq<u32>>) {
    forall h :: h in files ==> IsChain(e, files[h]) && files[h][0] == h
  }

  /** No two files end in the same cluster; by SharedClusterSharedEnd they then share no cluster at all. */
  ghost predicate Separate(files: map<u32, seq<u32>>) {
    && (forall h :: h in files ==> files[h] != [])
    && (forall h, g :: h in files && g in files && h != g ==> Last(files[h]) != Last(files[g]))
  }

  ghost predicate Owned(files: map<u32, seq<u32>>, c: u32) {
    exists h :: h in files && c in files[h]
  }

  /** The used entries are the clusters of the files and the foreign marks. */
  ghost predicate Covered(e: seq<u32>, files: map<u32, seq<u32>>, foreign: set<u32>) {
    && (forall c :: c in foreign ==> 2 <= c < |e| && e[c] != 0 && !Owned(files, c))
    && (forall c: u32 {:trigger Owned(files, c)} :: 2 <= c < |e| && e[c] != 0 ==> c in foreign || Owned(files, c))
  }

  /**
   * `files` maps the first cluster of every file to its chain.  The chains are disjoint, and together with the
   * `foreign` entries (marks that belong to no file, such as bad clusters) they are all the used entries.
   */
  ghost predicate WellFormed(e: seq<u32>, files: map<u32, seq<u32>>, foreign: set<u32>) {
    FatSized(e) && AllChains(e, files) && Separate(files) && Covered(e, files, foreign)
  }

  /** No cluster belongs to two files. */
  lemma ChainsDisjoint(e: seq<u32>, files: map<u32, seq<u32>>, h: u32, g: u32)
    requires FatSized(e) && AllChains(e, files) && Separate(files)
    requires h in files && g in files && h != g
    ensures forall c :: c in files[h] ==> c !in files[g]
  {
    forall c | c in files[h]
      ensures c !in files[g]
    {
      assert Last(files[h]) != Last(files[g]);
      if c in files[g] {
        SharedClusterSharedEnd(e, files[h], files[g], c);
      }
    }
  }

  /** A chain none of whose clusters is rewritten stays a chain. */
  lemma ChainFrame(e: seq<u32>, e': seq<u32>, s: seq<u32>)
    requires IsChain(e, s) && |e'| == |e|
    requires forall c: u32 :: c in s ==> c < |e| && e'[c] == e[c]
    ensures IsChain(e', s)
  {
    assert forall i :: 0 <= i < |s| ==> s[i] in s;
  }

  /** Linking a free cluster behind a chain extends it by that cluster. */
  lemma ChainExtends(e: seq<u32>, s: seq<u32>, n: u32)
    requires IsChain(e, s) && FatSized(e)
    requires 2 <= n < |e| && e[n] == 0
    ensures IsChain(e[Last(s) := n][n := END_OF_CHAIN], s + [n])
  {
    ChainIsAcyclic(e, s);
    ChainClustersUsed(e, s);
    var e', t := e[Last(s) := n][n := END_OF_CHAIN], s + [n];
    forall i | 0 <= i < |t| - 1
      ensures e'[t[i]] == t[i + 1]
    {
      assert s[i] in s;
    }
  }

  /** Linking a free cluster behind a file extends that file's chain by it and leaves every other chain as it was. */
  lemma ExtendKeeps(e: seq<u32>, files: map<u32, seq<u32>>, foreign: set<u32>, h: u32, n: u32)
    requires WellFormed(e, files, foreign) && h in files
    requires 2 <= n < |e| && e[n] == 0 && Last(files[h]) < |e|
    ensures WellFormed(e[Last(files[h]) := n][n := END_OF_CHAIN], files[h := files[h] + [n]], foreign)
  {
    ExtendedChains(e, files, h, n);
    ExtendedApart(e, files, h, n);
    ExtendedCover(e, files, foreign, h, n);
  }

  lemma ExtendedChains(e: seq<u32>, files: map<u32, seq<u32>>, h: u32, n: u32)
    requires FatSized(e) && AllChains(e, files) && Separate(files) && h in files
    requires 2 <= n < |e| && e[n] == 0 && Last(files[h]) < |e|
    ensures AllChains(e[Last(files[h]) := n][n := END_OF_CHAIN], files[h := files[h] + [n]])
  {
    ChainExtends(e, files[h], n);
    forall g | g in files && g != h
      ensures IsChain(e[Last(files[h]) := n][n := END_OF_CHAIN], files[g])
    {
      OtherChainKept(e, files, h, g, n);
    }
  }

  lemma ExtendedApart(e: seq<u32>, files: map<u32, seq<u32>>, h: u32, n: u32)
    requires AllChains(e, files) && Separate(files) && h in files
    requires 2 <= n < |e| && e[n] == 0
    ensures Separate(files[h := files[h] + [n]])
  {
    forall g | g in files
      ensures Last(files[g]) != n
    {
      ChainClustersUsed(e, files[g]);
    }
  }

  lemma ExtendedCover(e: seq<u32>, files: map<u32, seq<u32>>, foreign: set<u32>, h: u32, n: u32)
    requires AllChains(e, files) && Covered(e, files, foreign) && h in files
    requires 2 <= n < |e| && e[n] == 0 && Last(files[h]) < |e|
    ensures Covered(e[Last(files[h]) := n][n := END_OF_CHAIN], files[h := files[h] + [n]], foreign)
  {
    OwnersGrow(files, h, n);
    ChainClustersUsed(e, files[h]);
    assert Last(files[h]) in files[h];
    LinkedCover(e, files, files[h := files[h] + [n]], foreign, Last(files[h]), n);
  }

  lemma LinkedCover(e: seq<u32>, files: map<u32, seq<u32>>, files': map<u32, seq<u32>>, foreign: set<u32>,
                    last: u32, n: u32)
    requires Covered(e, files, foreign)
    requires last < |e| && e[last] != 0 && Owned(files, last)
    requires 2 <= n < |e| && e[n] == 0
    requires forall c :: Owned(files', c) <==> c == n || Owned(files, c)
    ensures Covered(e[last := n][n := END_OF_CHAIN], files', foreign)
  {
    var e' := e[last := n][n := END_OF_CHAIN];
    assert forall c: u32 :: c < |e| && e'[c] != 0 ==> c == n || e[c] != 0;
  }

  lemma OtherChainKept(e: seq<u32>, files: map<u32, seq<u32>>, h: u32, g: u32, n: u32)
    requires FatSized(e) && AllChains(e, files) && Separate(files)
    requires h in files && g in files && h != g
    requires 2 <= n < |e| && e[n] == 0 && Last(files[h]) < |e|
    ensures IsChain(e[Last(files[h]) := n][n := END_OF_CHAIN], files[g])
  {
    ChainsDisjoint(e, files, h, g);
    ChainClustersUsed(e, files[g]);
    ChainFrame(e, e[Last(files[h]) := n][n := END_OF_CHAIN], files[g]);
  }

  lemma OwnersGrow(files: map<u32, seq<u32>>, h: u32, n: u32)
    requires h in files
    ensures forall c :: Owned(files[h := files[h] + [n]], c) <==> c == n || Owned(files, c)
  {
    var files' := files[h := files[h] + [n]];
    forall c
      ensures Owned(files', c) <==> c == n || Owned(files, c)
    {
      assert n in files'[h];
      if g :| g in files && c in files[g] {
        assert g in files' && c in files'[g];
      }
    }
  }

  /** Marking a free cluster as the end of a chain makes it a file of its own. */
  lemma CreateKeeps(e: seq<u32>, files: map<u32, seq<u32>>, foreign: set<u32>, n: u32)
    requires WellFormed(e, files, foreign)
    requires 2 <= n < |e| && e[n] == 0
    ensures n !in files
    ensures WellFormed(e[n := END_OF_CHAIN], files[n := [n]], foreign)
  {
    var e' := e[n := END_OF_CHAIN];
    var files' := files[n := [n]];
    forall g | g in files
      ensures g != n && n !in files[g] && IsChain(e', files[g])
    {
      ChainClustersUsed(e, files[g]);
      ChainFrame(e, e', files[g]);
    }
    forall c
      ensures Owned(files', c) <==> c == n || Owned(files, c)
    {
      assert n in files'[n];
      if g :| g in files && c in files[g] {
        assert g in files' && c in files'[g];
      }
    }
  }

  /** Clearing a whole chain removes that file and leaves every other chain as it was. */
  lemma DeleteKeeps(e: seq<u32>, files: map<u32, seq<u32>>, foreign: set<u32>, h: u32)
    requires WellFormed(e, files, foreign) && h in files
    ensures WellFormed(Cleared(e, files[h]), files - {h}, foreign)
  {
    var e' := Cleared(e, files[h]);
    var files' := files - {h};
    forall g | g in files'
      ensures IsChain(e', files'[g])
    {
      ChainsDisjoint(e, files, g, h);
      ChainFrame(e, e', files[g]);
    }
    OwnersShrink(e, files, h);
  }

  lemma OwnersShrink(e: seq<u32>, files: map<u32, seq<u32>>, h: u32)
    requires FatSized(e) && AllChains(e, files) && Separate(files) && h in files
    ensures forall c :: Owned(files - {h}, c) <==> Owned(files, c) && c !in files[h]
  {
    forall c
      ensures Owned(files - {h}, c) <==> Owned(files, c) && c !in files[h]
    {
      if g :| g in files && c in files[g] && g != h {
        ChainsDisjoint(e, files, g, h);
        assert g in files - {h} && c in (files - {h})[g];
      }
    }
  }
}
