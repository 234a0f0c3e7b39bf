/**
  The cluster-chain allocator of the FAT32 driver.

  A volume holds `fatcount` mirrored copies of the file allocation table, a free counter and a
  low-water hint. A file is a chain of clusters threaded through the table. Each operation is one
  atomic step, and the ghost field `files` records which chain every file owns.
 */
module FatChains {

  const FINAL_CLUSTER: nat := 0xfff_fff8

  const UNKNOWN: nat := 0xffff_ffff

  // A cluster_t is 32 bits wide; tables are shorter than FINAL_CLUSTER, so no operation can overflow it.
  type Cluster = int
  type Byte = int
  type FileId = nat

  predicate IsFinal(c: Cluster) {
    c >= FINAL_CLUSTER
  }

  function Zeros(n: nat): seq<Byte> {
    seq(n, _ => 0)
  }

  /** The clusters whose table entry is zero. */
  ghost function FreeSet(fat: seq<Cluster>): set<Cluster> {
    set c: Cluster | 0 <= c < |fat| && fat[c] == 0
  }

  /** `s` is a terminated chain of data clusters, listed in order. */
  ghost predicate Chain(fat: seq<Cluster>, s: seq<Cluster>) {
    && s != []
    && (forall i :: 0 <= i < |s| ==> 2 <= s[i] < |fat|)
    && (forall i {:trigger fat[s[i]]} :: 0 <= i < |s| - 1 ==> fat[s[i]] == s[i + 1])
    && IsFinal(fat[s[|s| - 1]])
  }

  /** The free counter is exact, and no free cluster lies below the hint. */
  ghost predicate Sound(fat: seq<Cluster>, free: nat, startat: nat) {
    && 2 <= |fat| <= FINAL_CLUSTER
    && fat[0] != 0 && fat[1] != 0
    && free == |FreeSet(fat)|
    && 1 <= startat
    && forall c :: 0 <= c < startat && c < |fat| ==> fat[c] != 0
  }

  /** Every file owns a chain of its own: no cluster belongs to two files. */
  ghost predicate Owned(fat: seq<Cluster>, files: map<FileId, seq<Cluster>>) {
    && (forall f :: f in files && files[f] != [] ==> Chain(fat, files[f]))
    && (forall f, g, c :: f in files && g in files && f != g && c in files[f] ==> c !in files[g])
  }

  function StartOf(s: seq<Cluster>): Cluster {
    if s == [] then 0 else s[0]
  }

  // ----- facts about chains

  /** Chains are acyclic: a terminated chain never visits a cluster twice. */
  lemma {:induction false} ChainDistinct(fat: seq<Cluster>, s: seq<Cluster>, i: nat, j: nat)
    requires |fat| <= FINAL_CLUSTER && Chain(fat, s) && i < j < |s|
    ensures s[i] != s[j]
    decreases |s| - j
  {
    if j == |s| - 1 {
      assert IsFinal(fat[s[j]]) && fat[s[i]] == s[i + 1];
    } else {
      ChainDistinct(fat, s, i + 1, j + 1);
      assert fat[s[i]] == s[i + 1] && fat[s[j]] == s[j + 1];
    }
  }

  /** A chain survives any change to entries outside it. */
  lemma ChainFrame(fat: seq<Cluster>, fat': seq<Cluster>, s: seq<Cluster>)
    requires Chain(fat, s) && |fat| == |fat'|
    requires forall c :: c in s ==> fat'[c] == fat[c]
    ensures Chain(fat', s)
  {
    forall i | 0 <= i < |s| ensures fat'[s[i]] == fat[s[i]] {
      assert s[i] in s;
    }
  }

  /** Exactly the last cluster of a chain carries the end mark. */
  lemma ChainEnds(fat: seq<Cluster>, s: seq<Cluster>, i: nat)
    requires |fat| <= FINAL_CLUSTER && Chain(fat, s) && i < |s|
    ensures IsFinal(fat[s[i]]) <==> i == |s| - 1
  {
    if i < |s| - 1 {
      assert fat[s[i]] == s[i + 1];
    }
  }

  /** A table determines at most one chain from a given cluster. */
  lemma {:induction false} ChainUnique(fat: seq<Cluster>, s: seq<Cluster>, t: seq<Cluster>)
    requires |fat| <= FINAL_CLUSTER && Chain(fat, s) && Chain(fat, t) && s[0] == t[0]
    ensures s == t
  {
    ChainEnds(fat, s, 0);
    ChainEnds(fat, t, 0);
    if |s| == 1 {
    } else {
      assert fat[s[0]] == s[1] && fat[t[0]] == t[1];
      assert Chain(fat, s[1..]) by { Tail(fat, s); }
      assert Chain(fat, t[1..]) by { Tail(fat, t); }
      ChainUnique(fat, s[1..], t[1..]);
      assert s == [s[0]] + s[1..] && t == [t[0]] + t[1..];
    }
  }

  lemma Tail(fat: seq<Cluster>, s: seq<Cluster>)
    requires Chain(fat, s) && |s| > 1
    ensures Chain(fat, s[1..])
  {
    forall i | 0 <= i < |s[1..]| - 1 ensures fat[s[1..][i]] == s[1..][i + 1] {
      assert fat[s[i + 1]] == s[i + 2];
    }
  }

  /** Two terminated chains, the second hung from the end of the first, make one chain. */
  lemma ChainConcat(fat: seq<Cluster>, fat': seq<Cluster>, s: seq<Cluster>, t: seq<Cluster>)
    requires Chain(fat, s) && Chain(fat, t) && |fat| <= FINAL_CLUSTER
    requires forall c :: c in s ==> c !in t
    requires fat' == fat[s[|s| - 1] := t[0]]
    ensures Chain(fat', s + t)
  {
    var u := s + t;
    forall i | 0 <= i < |u| - 1 ensures fat'[u[i]] == u[i + 1] {
      if i < |s| - 1 {
        ChainDistinct(fat, s, i, |s| - 1);
      } else if i >= |s| {
        assert t[i - |s|] in t;
        assert s[|s| - 1] in s;
      }
    }
    assert t[|t| - 1] in t;
    assert s[|s| - 1] in s;
  }

  /** With two free clusters, one of which is the lowest, another lies above it. */
  lemma FreeAbove(fat: seq<Cluster>, c: Cluster)
    requires 0 <= c < |fat| && fat[c] == 0 && |FreeSet(fat)| >= 2
    requires forall k :: 0 <= k < c ==> fat[k] != 0
    ensures exists k :: c < k < |fat| && fat[k] == 0
  {
    var rest := FreeSet(fat) - {c};
    assert FreeSet(fat) == rest + {c};
    var k :| k in rest;
  }

  lemma FreeSetClear(fat: seq<Cluster>, c: Cluster)
    requires 0 <= c < |fat| && fat[c] != 0
    ensures |FreeSet(fat[c := 0])| == |FreeSet(fat)| + 1
  {
    assert FreeSet(fat[c := 0]) == FreeSet(fat) + {c};
  }

  lemma FreeSetTake(fat: seq<Cluster>, c: Cluster, v: Cluster)
    requires 0 <= c < |fat| && fat[c] == 0 && v != 0
    ensures |FreeSet(fat[c := v])| == |FreeSet(fat)| - 1
  {
    assert FreeSet(fat[c := v]) == FreeSet(fat) - {c};
  }

  lemma FreeSetKeep(fat: seq<Cluster>, c: Cluster, v: Cluster)
    requires 0 <= c < |fat| && fat[c] != 0 && v != 0
    ensures FreeSet(fat[c := v]) == FreeSet(fat)
  {
  }

  /** The members of a chain are in use. */
  lemma ChainInUse(fat: seq<Cluster>, s: seq<Cluster>, c: Cluster)
    requires Chain(fat, s) && c in s
    ensures 2 <= c < |fat| && fat[c] != 0
  {
    var i :| 0 <= i < |s| && s[i] == c;
    assert i < |s| - 1 ==> fat[s[i]] == s[i + 1];
  }

  lemma {:induction false} DistinctCount(s: seq<Cluster>, n: nat)
    requires forall i, j :: 0 <= i < j < |s| ==> s[i] != s[j]
    requires forall i :: 0 <= i < |s| ==> 0 <= s[i] < n
    ensures |s| <= n
  {
    if s == [] {
      return;
    }
    assert s[0] < n;
    if exists k :: 0 <= k < |s| && s[k] == n - 1 {
      var k :| 0 <= k < |s| && s[k] == n - 1;
      DistinctCount(s[..k] + s[k + 1..], n - 1);
    } else {
      DistinctCount(s, n - 1);
    }
  }

  /** So no chain is longer than the table, and following links ends. */
  lemma ChainLength(fat: seq<Cluster>, s: seq<Cluster>)
    requires Chain(fat, s) && |fat| <= FINAL_CLUSTER
    ensures |s| <= |fat|
  {
    forall i, j | 0 <= i < j < |s| ensures s[i] != s[j] {
      ChainDistinct(fat, s, i, j);
    }
    DistinctCount(s, |fat|);
  }

  /** Cutting a chain after `n` clusters leaves the two parts as chains. */
  lemma ChainCut(fat: seq<Cluster>, fat': seq<Cluster>, s: seq<Cluster>, n: nat)
    requires Chain(fat, s) && 0 < n < |s| && |fat| <= FINAL_CLUSTER
    requires fat' == fat[s[n - 1] := FINAL_CLUSTER]
    ensures Chain(fat', s[..n]) && Chain(fat', s[n..])
    ensures forall c :: c in s[..n] ==> c !in s[n..]
  {
    forall i, j | 0 <= i < j < |s| ensures s[i] != s[j] {
      ChainDistinct(fat, s, i, j);
    }
    var t := s[n..];
    forall i | 0 <= i < |t| - 1 ensures fat'[t[i]] == t[i + 1] {
      assert fat[s[n + i]] == s[n + i + 1];
    }
  }

  /**
    Giving file `f` a new chain out of its old clusters and free ones keeps every other file's chain,
    provided only the old clusters of `f` and free entries were written.
   */
  lemma Rehome(fat: seq<Cluster>, fat': seq<Cluster>, files: map<FileId, seq<Cluster>>, f: FileId, t: seq<Cluster>)
    requires Owned(fat, files) && f in files && |fat'| == |fat|
    requires t == [] || Chain(fat', t)
    requires forall c :: 0 <= c < |fat| && c in t ==> c in files[f] || fat[c] == 0
    requires forall c :: 0 <= c < |fat| && c !in files[f] && fat[c] != 0 ==> fat'[c] == fat[c]
    ensures Owned(fat', files[f := t])
  {
    var files' := files[f := t];
    forall g, c | g in files && g != f && c in files[g]
      ensures 0 <= c < |fat| && fat'[c] == fat[c] && c !in t
    {
      ChainInUse(fat, files[g], c);
    }
    forall g | g in files' && files'[g] != [] ensures Chain(fat', files'[g]) {
      if g != f {
        ChainFrame(fat, fat', files[g]);
      }
    }
  }

  // ----- a chain under construction

  /** `s` lists, in increasing order, the lowest free clusters of `was`; all but the last are linked. */
  ghost predicate Linking(was: seq<Cluster>, fat: seq<Cluster>, s: seq<Cluster>) {
    && s != [] && |fat| == |was|
    && (forall j :: 0 <= j < |s| ==> 2 <= s[j] < |was| && was[s[j]] == 0)
    && (forall j :: 0 <= j < |s| - 1 ==> s[j] < s[|s| - 1])
    && (forall j {:trigger fat[s[j]]} :: 0 <= j < |s| - 1 ==> fat[s[j]] == s[j + 1])
    && (forall d :: 0 <= d < |was| && (d !in s || d == s[|s| - 1]) ==> fat[d] == was[d])
    && (forall d :: 0 <= d < s[|s| - 1] ==> fat[d] != 0)
  }

  /** The finished chain: `s` was free and is now linked, and no other entry changed. */
  ghost predicate Linked(was: seq<Cluster>, fat: seq<Cluster>, s: seq<Cluster>) {
    && |fat| == |was| && Chain(fat, s)
    && (forall c :: 0 <= c < |was| && c in s ==> was[c] == 0)
    && (forall c :: 0 <= c < |was| && c !in s ==> fat[c] == was[c])
    && |FreeSet(fat)| == |FreeSet(was)| - |s|
  }

  lemma LinkedIn(was: seq<Cluster>, fat: seq<Cluster>, s: seq<Cluster>)
    requires Linked(was, fat, s)
    ensures |fat| == |was| && forall c :: c in s ==> 0 <= c < |was|
  {
  }

  lemma LinkNext(was: seq<Cluster>, fat: seq<Cluster>, s: seq<Cluster>, next: Cluster)
    requires Linking(was, fat, s) && s[|s| - 1] < next < |was| && fat[next] == 0
    requires forall d :: s[|s| - 1] < d < next ==> fat[d] != 0
    ensures Linking(was, fat[s[|s| - 1] := next], s + [next])
    ensures |FreeSet(fat[s[|s| - 1] := next])| == |FreeSet(fat)| - 1
  {
    var c := s[|s| - 1];
    assert next !in s;
    FreeSetTake(fat, c, next);
  }

  /** The clusters under construction are the lowest free ones. */
  lemma LinkingLowest(was: seq<Cluster>, fat: seq<Cluster>, s: seq<Cluster>)
    requires Linking(was, fat, s) && Increasing(s)
    ensures Lowest(was, s)
  {
  }

  lemma IncreasingOn(was: seq<Cluster>, fat: seq<Cluster>, s: seq<Cluster>, next: Cluster)
    requires Linking(was, fat, s + [next]) && Increasing(s)
    ensures Increasing(s + [next])
  {
    var t := s + [next];
    assert t[|t| - 1] == next;
  }

  lemma OneIncreasing(c: Cluster)
    ensures Increasing([c]) && [c][..0] == []
  {
  }

  lemma ClearNone(data: seq<seq<Byte>>, size: nat)
    ensures Clear(data, [], size) == data
  {
  }

  lemma ClearOne(data: seq<seq<Byte>>, s: seq<Cluster>, size: nat)
    requires s != []
    ensures Clear(Clear(data, s[..|s| - 1], size), [s[|s| - 1]], size) == Clear(data, s, size)
  {
    assert s == s[..|s| - 1] + [s[|s| - 1]];
  }

  lemma LinkLast(was: seq<Cluster>, fat: seq<Cluster>, s: seq<Cluster>)
    requires Linking(was, fat, s) && |was| <= FINAL_CLUSTER && |FreeSet(fat)| == |FreeSet(was)| - |s| + 1
    ensures Linked(was, fat[s[|s| - 1] := FINAL_CLUSTER], s)
  {
    FreeSetTake(fat, s[|s| - 1], FINAL_CLUSTER);
  }

  /** Hanging a freshly linked chain `t` from the chain of `f` extends that file and no other. */
  lemma Grown(was: seq<Cluster>, mid: seq<Cluster>, files: map<FileId, seq<Cluster>>, f: FileId, t: seq<Cluster>)
    requires |was| <= FINAL_CLUSTER && Owned(was, files) && f in files && files[f] != [] && Linked(was, mid, t)
    ensures Chain(was, files[f]) && Chain(mid, t)
    ensures var s := files[f]; var fat := mid[s[|s| - 1] := t[0]];
            && Owned(fat, files[f := s + t]) && FreeSet(fat) == FreeSet(mid)
            && forall c :: 0 <= c < |mid| && mid[c] != 0 ==> fat[c] != 0
  {
    var s := files[f];
    var last := s[|s| - 1];
    forall c | c in s ensures 0 <= c < |was| && c !in t && mid[c] == was[c] {
      ChainInUse(was, s, c);
    }
    ChainFrame(was, mid, s);
    ChainInUse(mid, s, last);
    FreeSetKeep(mid, last, t[0]);
    ChainConcat(mid, mid[last := t[0]], s, t);
    Rehome(was, mid[last := t[0]], files, f, s + t);
  }

  // ----- clusters on the volume

  /** The free clusters below `limit`. */
  ghost function FreeBelow(fat: seq<Cluster>, limit: nat): set<Cluster> {
    set c: Cluster | 0 <= c < |fat| && fat[c] == 0 && c < limit
  }

  ghost predicate AllBelow(s: seq<Cluster>, limit: nat) {
    forall c :: c in s ==> c < limit
  }

  /** `s` lists free clusters in increasing order, and no free one below its last is missing. */
  ghost predicate Lowest(was: seq<Cluster>, s: seq<Cluster>) {
    && s != [] && (forall i :: 0 <= i < |s| ==> 0 <= s[i] < |was| && was[s[i]] == 0)
    && Increasing(s)
    && (forall c :: 0 <= c < s[|s| - 1] && was[c] == 0 ==> c in s)
  }

  ghost predicate Increasing(s: seq<Cluster>) {
    forall i, j :: 0 <= i < j < |s| ==> s[i] < s[j]
  }

  ghost function Members(s: seq<Cluster>): set<Cluster> {
    set c | c in s
  }

  lemma {:induction false} MembersCount(s: seq<Cluster>)
    requires Increasing(s)
    ensures |Members(s)| == |s|
  {
    if s != [] {
      var n := |s| - 1;
      MembersCount(s[..n]);
      assert s == s[..n] + [s[n]];
      assert Members(s) == Members(s[..n]) + {s[n]};
      assert s[n] !in s[..n];
    }
  }

  lemma SubsetCount(a: set<Cluster>, b: set<Cluster>)
    requires a <= b
    ensures |a| <= |b|
  {
    assert b == a + (b - a);
  }

  /**
    The table may have entries past the end of the volume, which count as free when they are zero. The clusters
    taken lie on the volume exactly when it has that many free ones of its own.
   */
  lemma OnVolumeExact(was: seq<Cluster>, s: seq<Cluster>, limit: nat)
    requires Lowest(was, s)
    ensures AllBelow(s, limit) <==> |s| <= |FreeBelow(was, limit)|
  {
    MembersCount(s);
    var last := s[|s| - 1];
    if last < limit {
      assert AllBelow(s, limit) by {
        forall c | c in s ensures c < limit {
          var i :| 0 <= i < |s| && s[i] == c;
        }
      }
      SubsetCount(Members(s), FreeBelow(was, limit));
    } else {
      assert last in s;
      var others := Members(s) - {last};
      assert Members(s) == others + {last};
      SubsetCount(FreeBelow(was, limit), others);
    }
  }

  /** On a table of two free entries of which the second is past the volume, two clusters do not stay on it. */
  lemma OffVolumeExample()
    ensures var fat := [FINAL_CLUSTER, FINAL_CLUSTER, 0, 0];
            Lowest(fat, [2, 3]) && |FreeSet(fat)| == 2 && |FreeBelow(fat, 3)| == 1 && !AllBelow([2, 3], 3)
  {
    var fat := [FINAL_CLUSTER, FINAL_CLUSTER, 0, 0];
    assert FreeSet(fat) == {2, 3};
    assert FreeBelow(fat, 3) == {2};
    assert 3 in [2, 3];
  }

  /** `data` after zeroing the clusters of `s` one by one; a write past the end of the volume is lost. */
  ghost function Clear(data: seq<seq<Byte>>, s: seq<Cluster>, size: nat): (r: seq<seq<Byte>>)
    ensures |r| == |data|
    ensures forall d :: 0 <= d < |data| ==> r[d] == if d in s then Zeros(size) else data[d]
  {
    if s == [] then data
    else
      var rest, c := Clear(data, s[..|s| - 1], size), s[|s| - 1];
      if 0 <= c < |data| then rest[c := Zeros(size)] else rest
  }

  // ----- the volume

  class Volume {
    var fats: seq<seq<Cluster>>     // the mirrored tables; the first one is read
    var free: nat                   // fsinfo.free
    var startat: nat                // fsinfo.startat
    var data: seq<seq<Byte>>        // contents of every cluster on the volume
    const clusterSize: nat
    ghost var files: map<FileId, seq<Cluster>>

    ghost predicate Mirrored()
      reads this
    {
      && fats != []
      && |data| <= |fats[0]|
      && forall k :: 0 <= k < |fats| ==> fats[k] == fats[0]
    }

    ghost predicate TableOk()
      reads this
    {
      Mirrored() && Sound(fats[0], free, startat)
    }

    ghost predicate Valid()
      reads this
    {
      TableOk() && Owned(fats[0], files)
    }

    method Next(cluster: Cluster) returns (next: Cluster)
      requires Mirrored() && 0 <= cluster < |fats[0]|
      ensures next == fats[0][cluster]
    {
      next := fats[0][cluster];
    }

    /** Writes the entry in every copy of the table. */
    method SetNext(cluster: Cluster, val: Cluster)
      requires Mirrored() && 0 <= cluster < |fats[0]|
      modifies `fats
      ensures Mirrored()
      ensures fats[0] == old(fats[0])[cluster := val]
    {
      ghost var was := fats[0];
      var fat := 0;
      while fat < |fats|
        invariant 0 <= fat <= |fats| == old(|fats|)
        invariant forall k :: 0 <= k < fat ==> fats[k] == was[cluster := val]
        invariant forall k :: fat <= k < |fats| ==> fats[k] == was
      {
        var copy: seq<Cluster> := fats[fat][cluster := val];
        fats := fats[fat := copy];
        fat := fat + 1;
      }
    }

    /** Mount-time recount: whatever the information sector did not know becomes exact. */
    method UpdateFsInfo()
      requires Mirrored() && 2 <= |fats[0]| <= FINAL_CLUSTER && fats[0][0] != 0 && fats[0][1] != 0
      requires startat != UNKNOWN ==> 1 <= startat && forall c :: 0 <= c < startat && c < |fats[0]| ==> fats[0][c] != 0
      requires free != UNKNOWN && startat != UNKNOWN ==> free == |FreeSet(fats[0])|
      modifies `free, `startat
      ensures TableOk()
      ensures old(startat) != UNKNOWN ==> startat == old(startat)
      ensures old(startat) == UNKNOWN && free > 0 ==> startat in FreeSet(fats[0])
    {
      if free == UNKNOWN || startat == UNKNOWN {
        var fat := fats[0];
        free := 0;
        var cluster := 0;
        while cluster < |fat|
          invariant 0 <= cluster <= |fat| && free == |FreeSet(fat[..cluster])|
          invariant old(startat) != UNKNOWN ==> startat == old(startat)
          invariant old(startat) == UNKNOWN ==> if free == 0 then startat == UNKNOWN else startat in FreeSet(fat)
          invariant old(startat) == UNKNOWN ==> forall c :: 0 <= c < startat && c < cluster ==> fat[c] != 0
        {
          var zero := if fat[cluster] == 0 then {cluster} else {};
          assert FreeSet(fat[..cluster + 1]) == FreeSet(fat[..cluster]) + zero;
          if fat[cluster] == 0 {
            if startat == UNKNOWN {
              startat := cluster;
            }
            free := free + 1;
          }
          cluster := cluster + 1;
        }
        assert fat[..cluster] == fat;
      }
    }

    /** Follows `count` links; `end` says that the chain stopped first. */
    method Skip(cluster: Cluster, count: nat, ghost s: seq<Cluster>) returns (r: Cluster, end: bool)
      requires Mirrored() && |fats[0]| <= FINAL_CLUSTER
      requires Chain(fats[0], s) && s[0] == cluster
      ensures end <==> count >= |s|
      ensures r == s[if count < |s| then count else |s| - 1]
    {
      r, end := cluster, false;
      var i := 0;
      while i < count
        invariant 0 <= i <= count && i < |s| && r == s[i] && !end
        invariant i < |s| - 1 ==> fats[0][r] == s[i + 1]
      {
        var next := Next(r);
        if IsFinal(next) {
          end := true;
          break;
        }
        r := next;
        i := i + 1;
      }
    }

    /** First free cluster at or after `cluster`; it never runs past the table. */
    method NextFree(cluster: Cluster) returns (r: Cluster)
      requires Mirrored() && |fats[0]| <= FINAL_CLUSTER && cluster > 0
      requires exists k :: cluster <= k < |fats[0]| && fats[0][k] == 0
      ensures cluster <= r < |fats[0]| && fats[0][r] == 0
      ensures forall k :: cluster <= k < r ==> fats[0][k] != 0
    {
      r := cluster;
      while r != 0
        invariant cluster <= r < |fats[0]|
        invariant forall k :: cluster <= k < r ==> fats[0][k] != 0
        decreases |fats[0]| - r
      {
        var next := Next(r);
        if next == 0 {
          break;
        }
        r := r + 1;
      }
    }

    /** Returns every cluster of the chain to the free pool and lowers the hint. */
    method FreeClusters(cluster: Cluster, ghost s: seq<Cluster>)
      requires TableOk() && Chain(fats[0], s) && s[0] == cluster
      modifies `fats, `free, `startat
      ensures TableOk() && |fats[0]| == old(|fats[0]|)
      ensures free == old(free) + |s|
      ensures forall c :: c in s ==> fats[0][c] == 0
      ensures forall c :: 0 <= c < |fats[0]| && c !in s ==> fats[0][c] == old(fats[0])[c]
    {
      var c: Cluster := cluster;
      ghost var k := 0;
      ghost var was := fats[0];
      while !IsFinal(c)
        invariant 0 <= k <= |s| && TableOk() && |fats[0]| == |was|
        invariant if k < |s| then c == s[k] else IsFinal(c)
        invariant free == old(free) + k
        invariant forall j :: 0 <= j < k ==> fats[0][s[j]] == 0
        invariant forall d :: 0 <= d < |was| && d !in s[..k] ==> fats[0][d] == was[d]
        decreases |s| - k
      {
        assert c !in s[..k] by {
          forall j | 0 <= j < k ensures s[j] != c { ChainDistinct(was, s, j, k); }
        }
        ChainInUse(was, s, c);
        FreeSetClear(fats[0], c);
        var next := Next(c);
        SetNext(c, 0);
        free := free + 1;
        if c < startat {
          startat := c;
        }
        assert s[..k + 1] == s[..k] + [c];
        c := next;
        k := k + 1;
      }
      assert s[..k] == s;
    }

    /** Writes zeros to a cluster. A write past the end of the volume fails, which no one looks at. */
    method ZeroCluster(cluster: Cluster)
      requires Mirrored() && 0 <= cluster < |fats[0]|
      modifies `data
      ensures |data| == old(|data|) && data == Clear(old(data), [cluster], clusterSize)
    {
      assert [cluster][..0] == [];
      if cluster < |data| {
        data := data[cluster := Zeros(clusterSize)];
      }
    }

    /** One turn of the linking loop: links `cluster` to the next free cluster and zeroes it. */
    method LinkOne(cluster: Cluster, ghost was: seq<Cluster>, ghost s: seq<Cluster>) returns (next: Cluster)
      requires Mirrored() && |fats[0]| <= FINAL_CLUSTER && |FreeSet(fats[0])| >= 2
      requires Linking(was, fats[0], s) && s[|s| - 1] == cluster
      modifies `fats, `data
      ensures Mirrored() && Linking(was, fats[0], s + [next]) && next !in s
      ensures |FreeSet(fats[0])| == old(|FreeSet(fats[0])|) - 1
      ensures data == Clear(old(data), [cluster], clusterSize)
    {
      FreeAbove(fats[0], cluster);
      next := NextFree(cluster + 1);
      LinkNext(was, fats[0], s, next);
      SetNext(cluster, next);
      ZeroCluster(cluster);
    }

    /** The linking loop: takes the `count` lowest free clusters, `ret` being the first, and zeroes them. */
    method LinkClusters(ret: Cluster, count: nat) returns (cluster: Cluster, ghost s: seq<Cluster>)
      requires Mirrored() && |fats[0]| <= FINAL_CLUSTER && count > 0
      requires Linking(fats[0], fats[0], [ret]) && count <= |FreeSet(fats[0])|
      modifies `fats, `data
      ensures Mirrored() && Linked(old(fats[0]), fats[0], s)
      ensures |s| == count && s[0] == ret && s[count - 1] == cluster
      ensures forall c :: 0 <= c < cluster ==> fats[0][c] != 0
      ensures data == Clear(old(data), s, clusterSize) && Lowest(old(fats[0]), s)
    {
      hide Increasing, Lowest, Linked, FreeSet, Clear, Zeros;
      ghost var was := fats[0];
      cluster, s := ret, [ret];
      OneIncreasing(ret);
      ClearNone(data, clusterSize);
      var i := 0;
      while i < count - 1
        invariant 0 <= i <= count - 1 && |s| == i + 1 && s[0] == ret && s[i] == cluster
        invariant Mirrored() && Linking(was, fats[0], s) && |FreeSet(fats[0])| == |FreeSet(was)| - i
        invariant data == Clear(old(data), s[..i], clusterSize)
        invariant Increasing(s)
      {
        var next := LinkOne(cluster, was, s);
        assert s[..i + 1] == s && (s + [next])[..i + 1] == s;
        ClearOne(old(data), s, clusterSize);
        IncreasingOn(was, fats[0], s, next);
        cluster := next;
        s := s + [next];
        i := i + 1;
      }
      assert s[..i + 1] == s;
      LinkingLowest(was, fats[0], s);
      LinkLast(was, fats[0], s);
      ZeroCluster(cluster);
      ClearOne(old(data), s, clusterSize);
      SetNext(cluster, FINAL_CLUSTER);
    }

    /**
      Links `count` free clusters into a chain and zeroes them. Failure leaves no trace, and happens
      only when the volume is too full or the zero buffer cannot be had: once `count` free clusters
      are promised the search cannot come back empty, so the roll-back of the source is never taken.
     */
    method AllocateClusters(count: nat, bufferOk: bool) returns (ret: Cluster, ghost s: seq<Cluster>)
      requires TableOk() && count > 0
      modifies `fats, `free, `startat, `data
      ensures TableOk() && |fats[0]| == old(|fats[0]|)
      ensures ret == 0 <==> count > old(free) || !bufferOk
      ensures ret == 0 ==> fats == old(fats) && free == old(free) && startat == old(startat) && data == old(data)
      ensures ret != 0 ==> Linked(old(fats[0]), fats[0], s) && |s| == count && s[0] == ret
      ensures ret != 0 ==> |data| == old(|data|)
      ensures ret != 0 ==> (AllBelow(s, |data|) <==> count <= |FreeBelow(old(fats[0]), |data|)|)
      ensures ret != 0 ==> forall d :: 0 <= d < |data| ==>
                data[d] == if d in s then Zeros(clusterSize) else old(data)[d]
    {
      s := [];
      if count > free {
        return 0, s;
      }
      assert exists k :: startat <= k < |fats[0]| && fats[0][k] == 0 by {
        assert FreeSet(fats[0]) != {};
        var k :| k in FreeSet(fats[0]);
      }
      ret := NextFree(startat);
      if !bufferOk {
        return 0, s;
      }
      var cluster: Cluster;
      cluster, s := LinkClusters(ret, count);
      assert 0 !in s && 1 !in s;
      OnVolumeExact(old(fats[0]), s, |data|);
      free := free - count;
      startat := cluster;
    }

    /** Hangs a new chain behind the last cluster of file `f`. */
    method Attach(ghost f: FileId, last: Cluster, added: Cluster, ghost was: seq<Cluster>, ghost t: seq<Cluster>)
      requires TableOk() && |was| <= FINAL_CLUSTER && Owned(was, files) && Linked(was, fats[0], t) && t != []
      requires added == t[0]
      requires f in files && files[f] != [] && last == files[f][|files[f]| - 1]
      modifies `fats, `files
      ensures Valid() && |fats[0]| == old(|fats[0]|) == |was| && free == |FreeSet(was)| - |t|
      ensures files == old(files)[f := old(files)[f] + t]
    {
      Grown(was, fats[0], files, f, t);
      ghost var s := files[f];
      assert 0 <= last < |fats[0]| by { ChainInUse(was, s, last); }
      hide Owned, Chain, FreeSet;
      SetNext(last, added);
      files := files[f := s + t];
    }

    /** Appends `diff` fresh clusters to the chain of file `f`. */
    method Extend(ghost f: FileId, cluster: Cluster, diff: nat, bufferOk: bool) returns (ok: bool)
      requires Valid() && f in files && files[f] != [] && cluster == files[f][0] && diff > 0
      modifies this
      ensures Valid() && |fats[0]| == old(|fats[0]|)
      ensures !ok <==> diff > old(free) || !bufferOk
      ensures !ok ==>
                fats == old(fats) && free == old(free) && startat == old(startat) && data == old(data)
                && files == old(files)
      ensures ok ==> f in files && files == old(files)[f := files[f]] && free == old(free) - diff
      ensures ok ==> |files[f]| == |old(files[f])| + diff && files[f][..|old(files[f])|] == old(files[f])
      ensures ok ==> |data| == old(|data|)
      ensures ok ==> forall c :: c in files[f][|old(files[f])|..] && 0 <= c < |data| ==> data[c] == Zeros(clusterSize)
      ensures ok ==> (AllBelow(files[f][|old(files[f])|..], |data|) <==> diff <= |FreeBelow(old(fats[0]), |data|)|)
      ensures ok ==> forall c :: 0 <= c < |data| && c !in files[f] ==> data[c] == old(data)[c]
    {
      ghost var s, was := files[f], fats[0];
      ChainLength(was, s);
      var last, end := Skip(cluster, 0xffff_ffff_ffff_ffff, s);
      assert end;  // the source stops here otherwise
      var added: Cluster;
      ghost var t;
      hide Owned, Chain, FreeSet, Sound, Linked, Zeros, AllBelow, FreeBelow;
      added, t := AllocateClusters(diff, bufferOk);
      if added == 0 {
        return false;
      }
      LinkedIn(was, fats[0], t);
      Attach(f, last, added, was, t);
      assert files[f][|s|..] == t;
      ok := true;
    }

    /** Ends the chain of file `f` after `newsize` clusters and frees the others. */
    method Cut(ghost f: FileId, cluster: Cluster, newsize: nat)
      requires Valid() && f in files && 0 < newsize < |files[f]| && cluster == files[f][0]
      modifies this
      ensures Valid() && |fats[0]| == old(|fats[0]|) && data == old(data)
      ensures files == old(files)[f := old(files[f])[..newsize]]
      ensures free == old(free) + |old(files[f])| - newsize
    {
      ghost var s, was := files[f], fats[0];
      var last, end := Skip(cluster, newsize - 1, s);
      assert !end;  // the source stops here otherwise
      var next := Next(last);
      ChainInUse(was, s, last);
      FreeSetKeep(was, last, FINAL_CLUSTER);
      SetNext(last, FINAL_CLUSTER);
      ChainCut(was, fats[0], s, newsize);
      ghost var mid := fats[0];
      FreeClusters(next, s[newsize..]);
      ChainFrame(mid, fats[0], s[..newsize]);
      Rehome(was, fats[0], files, f, s[..newsize]);
      files := files[f := s[..newsize]];
    }

    /**
      Changes the number of clusters of file `f`. On success the file owns a chain of `newsize`
      clusters that begins with the clusters it keeps, every other file keeps its chain, and the
      clusters gained are zeroed; on failure nothing changes.
     */
    method Resize(ghost f: FileId, cluster: Cluster, oldsize: nat, newsize: nat, bufferOk: bool)
      returns (ok: bool, newstart: Cluster)
      requires Valid() && f in files
      requires |files[f]| == oldsize && cluster == StartOf(files[f])
      modifies this
      ensures Valid() && |fats[0]| == old(|fats[0]|)
      ensures !ok <==> newsize > oldsize && (newsize - oldsize > old(free) || !bufferOk)
      ensures !ok ==>
                fats == old(fats) && free == old(free) && startat == old(startat) && data == old(data)
                && files == old(files)
      ensures ok ==> f in files && files == old(files)[f := files[f]]
      ensures ok ==> |files[f]| == newsize && newstart == StartOf(files[f])
      ensures ok ==> free == old(free) + oldsize - newsize
      ensures ok && newsize <= oldsize ==> files[f] == old(files[f])[..newsize] && data == old(data)
      ensures ok && newsize >= oldsize ==> files[f][..oldsize] == old(files[f])
      ensures ok ==> |data| == old(|data|)
      ensures ok && newsize >= oldsize ==>
                forall c :: c in files[f][oldsize..] && 0 <= c < |data| ==> data[c] == Zeros(clusterSize)
      ensures ok && newsize > oldsize ==>
                (AllBelow(files[f][oldsize..], |data|) <==>
                   newsize - oldsize <= |FreeBelow(old(fats[0]), |data|)|)
      ensures ok ==> forall c :: 0 <= c < |data| && c !in files[f] ==> data[c] == old(data)[c]
    {
      var diff := newsize - oldsize;
      if diff == 0 {
        assert files == files[f := files[f]];
        return true, cluster;
      }
      if cluster == 0 {
        ghost var t;
        newstart, t := AllocateClusters(newsize, bufferOk);
        ok := newstart > 0;
        if ok {
          Rehome(old(fats[0]), fats[0], files, f, t);
          files := files[f := t];
        }
      } else if newsize == 0 {
        ghost var was := fats[0];
        FreeClusters(cluster, files[f]);
        Rehome(was, fats[0], files, f, []);
        files := files[f := []];
        ok, newstart := true, 0;
      } else {
        newstart := cluster;
        if diff > 0 {
          ok := Extend(f, cluster, diff, bufferOk);
        } else {
          Cut(f, cluster, newsize);
          ok := true;
        }
      }
    }
  }
}
