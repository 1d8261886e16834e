/** Strided CPU groups for pinned virtual machines (DUT.get_cpuids_group). */
module CpuGroups {
  import opened Outcomes

  /** The CPU that group i takes in its j-th turn. */
  function At(cpus: seq<nat>, vms: nat, i: nat, j: nat): nat
    requires i < vms && (j + 1) * vms <= |cpus|
  {
    Bound(vms, i, j, j + 1);
    cpus[i + j * vms]
  }

  /** Whether groups is the strided partition of cpus for the given numbers. */
  ghost predicate Strided(cpus: seq<nat>, vms: nat, size: nat, groups: seq<seq<nat>>)
    requires size * vms <= |cpus|
  {
    |groups| == vms && forall i :: 0 <= i < vms ==> StridedGroup(cpus, vms, size, i, groups[i])
  }

  ghost predicate StridedGroup(cpus: seq<nat>, vms: nat, size: nat, i: nat, group: seq<nat>)
    requires size * vms <= |cpus| && i < vms
  {
    |group| == size && forall j :: 0 <= j < size ==> (Bound(vms, 0, j, size); group[j] == At(cpus, vms, i, j))
  }

  /** Turn j of group i stays below the turns still to come. */
  lemma Bound(vms: nat, i: nat, j: nat, size: nat)
    requires i < vms && j < size
    ensures 0 <= i + j * vms < (j + 1) * vms <= size * vms
  {
    assert (j + 1) * vms == j * vms + vms;
    Scale(j + 1, size, vms);
  }

  lemma Scale(a: nat, b: nat, c: nat)
    requires a <= b
    ensures 0 <= a * c <= b * c
  {
    assert b * c == a * c + (b - a) * c;
  }

  /** get_cpuids_group; the source asserts that more CPUs than needed are there. */
  method GetCpuidsGroup(cpus: seq<nat>, vmNum: int, coreNum: int) returns (r: Result<seq<seq<nat>>>)
    ensures r.Failure? <==> |cpus| <= vmNum * (coreNum + 1)
    ensures r.Success? && vmNum >= 0 && coreNum >= -1 ==>
      (coreNum + 1) * vmNum <= |cpus| && Strided(cpus, vmNum, coreNum + 1, r.value)
    ensures r.Success? && vmNum <= 0 ==> r.value == []
    ensures r.Success? && vmNum > 0 && coreNum < -1 ==>
      |r.value| == vmNum && forall i :: 0 <= i < vmNum ==> r.value[i] == []
  {
    if |cpus| <= vmNum * (coreNum + 1) {
      return Failure(AssertionError);
    }
    assert vmNum >= 0 && coreNum >= -1 ==> (coreNum + 1) * vmNum == vmNum * (coreNum + 1);
    var groups: seq<seq<nat>> := [];
    var i := 0;
    while i < vmNum
      invariant 0 <= i && |groups| == i && (vmNum >= 0 ==> i <= vmNum) && (vmNum < 0 ==> i == 0)
      invariant coreNum >= -1 ==> forall k :: 0 <= k < i ==> StridedGroup(cpus, vmNum, coreNum + 1, k, groups[k])
      invariant coreNum < -1 ==> forall k :: 0 <= k < i ==> groups[k] == []
    {
      var group := OneGroup(cpus, vmNum, coreNum, i);
      groups := groups + [group];
      i := i + 1;
    }
    r := Success(groups);
  }

  /** The inner loop: CPUs at i, i + vmNum, i + 2 * vmNum and so on. */
  method OneGroup(cpus: seq<nat>, vmNum: nat, coreNum: int, i: nat) returns (group: seq<nat>)
    requires i < vmNum && (coreNum >= -1 ==> (coreNum + 1) * vmNum <= |cpus|)
    ensures coreNum >= -1 ==> StridedGroup(cpus, vmNum, coreNum + 1, i, group)
    ensures coreNum < -1 ==> group == []
  {
    group := [];
    var start := i;
    var j := 0;
    while j < coreNum + 1
      invariant 0 <= j && (coreNum >= -1 ==> j <= coreNum + 1) && (coreNum < -1 ==> j == 0)
      invariant start == i + j * vmNum && |group| == j
      invariant forall k :: 0 <= k < j ==> (Bound(vmNum, 0, k, coreNum + 1); group[k] == At(cpus, vmNum, i, k))
    {
      Bound(vmNum, i, j, coreNum + 1);
      assert (j + 1) * vmNum == j * vmNum + vmNum;
      group := group + [cpus[start]];
      start := start + vmNum;
      j := j + 1;
    }
  }

  predicate Distinct(s: seq<nat>) { forall i, j :: 0 <= i < j < |s| ==> s[i] != s[j] }

  /** Two turns are the same position only if they are the same turn of the same group. */
  lemma PositionUnique(vms: nat, i: nat, j: nat, i2: nat, j2: nat)
    requires i < vms && i2 < vms && i + j * vms == i2 + j2 * vms
    ensures i == i2 && j == j2
  {
    if j < j2 {
      Bound(vms, i, j, j2);
      assert false;
    } else if j2 < j {
      Bound(vms, i2, j2, j);
      assert false;
    }
  }

  /** Every position below size * vms is the turn of some group. */
  lemma PositionCovered(vms: nat, size: nat, p: nat) returns (i: nat, j: nat)
    requires p < size * vms
    ensures i < vms && j < size && p == i + j * vms
  {
    i, j := p % vms, p / vms;
    assert p == j * vms + i;
    if j >= size {
      Scale(size, j, vms);
      assert false;
    }
  }

  /** For distinct CPUs the groups have no repeats, are pairwise disjoint, and together are exactly the
      first vms * size CPUs. */
  lemma GroupsPartition(cpus: seq<nat>, vms: nat, size: nat, groups: seq<seq<nat>>)
    requires size * vms <= |cpus| && Distinct(cpus) && Strided(cpus, vms, size, groups)
    ensures forall i :: 0 <= i < vms ==> |groups[i]| == size && Distinct(groups[i])
    ensures forall i, i2, c :: 0 <= i < vms && 0 <= i2 < vms && c in groups[i] && c in groups[i2] ==> i == i2
    ensures forall c :: c in cpus[..size * vms] <==> exists i :: 0 <= i < vms && c in groups[i]
  {
    forall i, j, i2, j2 | 0 <= i < vms && 0 <= i2 < vms && 0 <= j < size && 0 <= j2 < size
                          && groups[i][j] == groups[i2][j2]
      ensures i == i2 && j == j2
    {
      SameCpu(cpus, vms, size, groups, i, j, i2, j2);
    }
    forall c ensures c in cpus[..size * vms] <==> exists i :: 0 <= i < vms && c in groups[i] {
      if c in cpus[..size * vms] {
        var p :| 0 <= p < size * vms && cpus[p] == c;
        var i, j := PositionCovered(vms, size, p);
        Bound(vms, i, j, size);
        assert groups[i][j] == c;
      }
      if i :| 0 <= i < vms && c in groups[i] {
        var j :| 0 <= j < size && groups[i][j] == c;
        Bound(vms, i, j, size);
        assert cpus[..size * vms][i + j * vms] == c;
      }
    }
  }

  lemma SameCpu(cpus: seq<nat>, vms: nat, size: nat, groups: seq<seq<nat>>, i: nat, j: nat, i2: nat, j2: nat)
    requires size * vms <= |cpus| && Distinct(cpus) && Strided(cpus, vms, size, groups)
    requires i < vms && i2 < vms && j < size && j2 < size && groups[i][j] == groups[i2][j2]
    ensures i == i2 && j == j2
  {
    Bound(vms, i, j, size);
    Bound(vms, i2, j2, size);
    var p, q := i + j * vms, i2 + j2 * vms;
    assert cpus[p] == cpus[q];
    assert p == q;
    PositionUnique(vms, i, j, i2, j2);
  }

  /** Two machines with one core each, on four CPUs: every other CPU goes to the same machine. */
  lemma StrideExample(groups: seq<seq<nat>>)
    requires Strided([10, 11, 12, 13], 2, 2, groups)
    ensures groups == [[10, 12], [11, 13]]
  {
    var cpus: seq<nat> := [10, 11, 12, 13];
    assert StridedGroup(cpus, 2, 2, 0, groups[0]) && StridedGroup(cpus, 2, 2, 1, groups[1]);
    assert groups[0][0] == At(cpus, 2, 0, 0) && groups[0][1] == At(cpus, 2, 0, 1);
    assert groups[1][0] == At(cpus, 2, 1, 0) && groups[1][1] == At(cpus, 2, 1, 1);
    assert groups[0] == [10, 12] && groups[1] == [11, 13];
  }
}
