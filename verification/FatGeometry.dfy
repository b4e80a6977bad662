/** Where a volume's tables and clusters lie on the device (kernel/fs/fat32.c, `fat32_geometry_from_bpb`). */
module FatGeometry {
  import opened FatChain

  const TWO32 := 0x1_0000_0000
  const SECTOR_SIZE := 512
  const ENTRIES := 128

  /** The fields of the boot sector that matter, within their widths. */
  datatype Bpb = Bpb(bytesPerSector: nat, spc: nat, reserved: nat, numFats: nat, spf: nat, root: nat)

  datatype Geometry = Geometry(spc: nat, numFats: nat, spf: nat, root: nat, fatLba: nat, dataLba: nat, maxCluster: nat)

  datatype Result = Mounted(g: Geometry) | NotSupported | Invalid

  predicate PowerOfTwo(n: nat) { n == 1 || n == 2 || n == 4 || n == 8 || n == 16 || n == 32 || n == 64 || n == 128 }

  function Min(a: nat, b: nat): nat { if a < b then a else b }

  /** The addresses are computed in 64 bits and stored in 32. */
  function FromBpb(b: Bpb, partition: nat, blocks: nat): Result {
    if b.bytesPerSector != SECTOR_SIZE then NotSupported
    else if !PowerOfTwo(b.spc) then Invalid
    else if b.reserved == 0 || b.spf == 0 || b.numFats < 1 || b.numFats > 2 then Invalid
    else if b.root < 2 then Invalid
    else
      var data := DataStart(b, partition);
      if data >= blocks then Invalid
      else
        var clusters := (blocks - data) / b.spc;
        if clusters == 0 then Invalid
        else
          var max := MaxCluster(b, partition, blocks);
          if max < 2 || b.root > max then Invalid
          else Mounted(Geometry(b.spc, b.numFats, b.spf, b.root, FatStart(b, partition) % TWO32, data % TWO32, max))
  }

  function FatStart(b: Bpb, partition: nat): nat { partition + b.reserved }

  function DataStart(b: Bpb, partition: nat): nat { FatStart(b, partition) + b.numFats * b.spf }

  /** The last cluster: as far as the device, the numbering and the table reach. */
  function MaxCluster(b: Bpb, partition: nat, blocks: nat): nat
    requires b.spc > 0 && b.spf > 0 && DataStart(b, partition) < blocks
  { Min(Min((blocks - DataStart(b, partition)) / b.spc + 1, CLUSTER_MAX), b.spf * ENTRIES - 1) }

  /** The sector holding a cluster's entry in a copy of the table, and a sector of a cluster, in 32-bit arithmetic. */
  function FatSector(g: Geometry, copy: nat, c: nat): nat { (g.fatLba + copy * g.spf + c / ENTRIES) % TWO32 }

  function DataSector(g: Geometry, c: nat, s: nat): nat
    requires c >= 2
  { (g.dataLba + (c - 2) * g.spc + s) % TWO32 }

  ghost predicate InUse(g: Geometry, c: nat, s: nat) { 2 <= c <= g.maxCluster && s < g.spc }

  /** Each copy of the table has its own sectors, after the reserved ones and before the data; each cluster has its own,
      inside the device. */
  ghost predicate LaidOut(g: Geometry, b: Bpb, partition: nat, blocks: nat) {
    && (forall i: nat, c: nat | i < g.numFats && 2 <= c <= g.maxCluster ::
          FatStart(b, partition) + i * g.spf <= FatSector(g, i, c) < FatStart(b, partition) + (i + 1) * g.spf <= DataStart(b, partition))
    && (forall c: nat, s: nat | InUse(g, c, s) :: DataStart(b, partition) <= DataSector(g, c, s) < blocks)
    && (forall c: nat, s: nat, d: nat, t: nat | InUse(g, c, s) && InUse(g, d, t) && DataSector(g, c, s) == DataSector(g, d, t) ::
          c == d && s == t)
  }

  lemma ClusterFits(b: Bpb, data: nat, blocks: nat, max: nat, c: nat, s: nat)
    requires b.spc > 0 && data < blocks && max <= (blocks - data) / b.spc + 1 && 2 <= c <= max && s < b.spc
    ensures data <= data + (c - 2) * b.spc + s < blocks
  {
    var n := (blocks - data) / b.spc;
    assert (c - 2) * b.spc + s < (c - 1) * b.spc;
    assert (c - 1) * b.spc <= n * b.spc <= blocks - data by { MulMono(c - 1, n, b.spc); }
  }

  lemma MulMono(a: nat, b: nat, k: nat)
    requires a <= b
    ensures a * k <= b * k
  {
  }

  lemma CopyFits(spf: nat, i: nat, n: nat, c: nat, max: nat)
    requires spf > 0 && i < n && c <= max < spf * ENTRIES
    ensures i * spf + c / ENTRIES < (i + 1) * spf <= n * spf
  {
    assert c / ENTRIES < spf;
    MulMono(i + 1, n, spf);
  }

  /** What acceptance says, before anything is cut to 32 bits. */
  lemma Accepted(b: Bpb, partition: nat, blocks: nat)
    requires FromBpb(b, partition, blocks).Mounted?
    ensures b.spc > 0 && b.spf > 0 && DataStart(b, partition) < blocks
    ensures var (g, data) := (FromBpb(b, partition, blocks).g, DataStart(b, partition));
            && g.spc == b.spc && g.spf == b.spf && g.numFats == b.numFats && g.maxCluster == MaxCluster(b, partition, blocks)
            && g.dataLba == data % TWO32 && g.fatLba == FatStart(b, partition) % TWO32
            && 0 < FatStart(b, partition) < FatStart(b, partition) + g.numFats * g.spf == data
            && g.maxCluster <= (blocks - data) / b.spc + 1 && g.maxCluster < g.spf * ENTRIES && 2 <= g.root <= g.maxCluster <= CLUSTER_MAX
  {
    MulMono(1, b.numFats, b.spf);
  }

  /** The boot sector's own fields are in order. */
  predicate WellFormed(b: Bpb) {
    b.bytesPerSector == SECTOR_SIZE && PowerOfTwo(b.spc) && b.reserved > 0 && b.spf > 0 && 1 <= b.numFats <= 2
  }

  /** A cluster can be used: it has a number, all its sectors are on the device, and its entry is inside the table. */
  predicate Usable(b: Bpb, partition: nat, blocks: nat, c: nat) {
    2 <= c <= CLUSTER_MAX && partition + b.reserved + b.numFats * b.spf + (c - 1) * b.spc <= blocks && c < b.spf * ENTRIES
  }

  lemma DivIff(x: nat, k: nat, c: nat)
    requires k > 0
    ensures c <= x / k <==> c * k <= x
  {
    var (q, r) := (x / k, x % k);
    assert x == q * k + r;
    if c <= q { MulMono(c, q, k); } else { MulMono(q + 1, c, k); }
  }

  /** The clusters up to the largest number are exactly the usable ones. */
  lemma UsableIff(b: Bpb, partition: nat, blocks: nat, c: nat)
    requires WellFormed(b) && DataStart(b, partition) < blocks && c >= 2
    ensures c <= MaxCluster(b, partition, blocks) <==> Usable(b, partition, blocks, c)
  {
    DivIff(blocks - DataStart(b, partition), b.spc, c - 1);
  }

  /** A volume is mounted exactly when its boot sector is in order and its root directory's first cluster can be used, and
      then every field is the boot sector's, the addresses are the sums of what lies before, cut to 32 bits, and the
      largest cluster is the last that can be used. */
  lemma MountsIff(b: Bpb, partition: nat, blocks: nat)
    ensures FromBpb(b, partition, blocks).Mounted? <==> WellFormed(b) && Usable(b, partition, blocks, b.root)
    ensures FromBpb(b, partition, blocks) == NotSupported <==> b.bytesPerSector != SECTOR_SIZE
    ensures FromBpb(b, partition, blocks).Mounted? ==>
              var g := FromBpb(b, partition, blocks).g;
              && g.root == b.root && g.spc == b.spc && g.numFats == b.numFats && g.spf == b.spf
              && g.fatLba == (partition + b.reserved) % TWO32
              && g.dataLba == (partition + b.reserved + b.numFats * b.spf) % TWO32
              && forall c: nat :: Usable(b, partition, blocks, c) <==> 2 <= c <= g.maxCluster
  {
    if WellFormed(b) {
      var data := DataStart(b, partition);
      assert b.root >= 2 ==> (b.root - 1) * b.spc >= b.spc by { if b.root >= 2 { MulMono(1, b.root - 1, b.spc); } }
      if data < blocks {
        hide DataStart, FatStart;
        forall c: nat | c >= 2 ensures c <= MaxCluster(b, partition, blocks) <==> Usable(b, partition, blocks, c) {
          UsableIff(b, partition, blocks, c);
        }
        DivIff(blocks - data, b.spc, 1);
        hide Usable, MaxCluster;
      }
    }
  }

  /** The last sector in use is below 2^32. */
  predicate Reachable(b: Bpb, partition: nat, blocks: nat)
    requires b.spc > 0 && b.spf > 0 && DataStart(b, partition) < blocks
  { DataStart(b, partition) + (MaxCluster(b, partition, blocks) - 1) * b.spc <= TWO32 }

  lemma ReachableBound(b: Bpb, partition: nat, blocks: nat, c: nat, s: nat)
    requires FromBpb(b, partition, blocks).Mounted? && InUse(FromBpb(b, partition, blocks).g, c, s)
    requires b.spc > 0 && b.spf > 0 && DataStart(b, partition) < blocks && Reachable(b, partition, blocks)
    ensures DataStart(b, partition) + (c - 2) * b.spc + s < TWO32
  {
    Accepted(b, partition, blocks);
    hide FromBpb;
    var g := FromBpb(b, partition, blocks).g;
    MulMono(c - 1, g.maxCluster - 1, b.spc);
    assert (c - 1) * b.spc == (c - 2) * b.spc + b.spc;
  }

  lemma TableSector(b: Bpb, partition: nat, blocks: nat, i: nat, c: nat)
    requires FromBpb(b, partition, blocks).Mounted? && DataStart(b, partition) < TWO32
    requires i < b.numFats && 2 <= c <= FromBpb(b, partition, blocks).g.maxCluster
    ensures var g := FromBpb(b, partition, blocks).g;
            FatStart(b, partition) + i * g.spf <= FatSector(g, i, c) < FatStart(b, partition) + (i + 1) * g.spf <= DataStart(b, partition)
  {
    Accepted(b, partition, blocks);
    var g := FromBpb(b, partition, blocks).g;
    hide FromBpb, MaxCluster, DataStart, FatStart;
    CopyFits(g.spf, i, g.numFats, c, g.maxCluster);
    NoWrap(FatStart(b, partition), i * g.spf + c / ENTRIES);
  }

  lemma NoWrap(start: nat, k: nat)
    requires start + k < TWO32
    ensures (start % TWO32 + k) % TWO32 == start + k
  {
  }

  lemma ClusterSector(b: Bpb, partition: nat, blocks: nat, c: nat, s: nat)
    requires FromBpb(b, partition, blocks).Mounted? && InUse(FromBpb(b, partition, blocks).g, c, s)
    requires b.spc > 0 && b.spf > 0 && DataStart(b, partition) < blocks && Reachable(b, partition, blocks)
    ensures var g := FromBpb(b, partition, blocks).g;
            DataStart(b, partition) <= DataSector(g, c, s) == DataStart(b, partition) + (c - 2) * g.spc + s < blocks
  {
    Accepted(b, partition, blocks);
    ReachableBound(b, partition, blocks, c, s);
    var g := FromBpb(b, partition, blocks).g;
    hide FromBpb, Reachable, MaxCluster, DataStart, FatStart;
    ClusterFits(b, DataStart(b, partition), blocks, g.maxCluster, c, s);
    NoWrap(DataStart(b, partition), (c - 2) * b.spc + s);
  }

  lemma ReachableIsLaidOut(b: Bpb, partition: nat, blocks: nat)
    requires FromBpb(b, partition, blocks).Mounted?
    requires b.spc > 0 && b.spf > 0 && DataStart(b, partition) < blocks && Reachable(b, partition, blocks)
    ensures LaidOut(FromBpb(b, partition, blocks).g, b, partition, blocks)
  {
    Accepted(b, partition, blocks);
    var g := FromBpb(b, partition, blocks).g;
    assert InUse(g, 2, 0);
    ReachableBound(b, partition, blocks, 2, 0);
    hide FromBpb, FatSector, DataSector, DataStart, FatStart, Reachable, MaxCluster;
    forall i: nat, c: nat | i < g.numFats && 2 <= c <= g.maxCluster
      ensures FatStart(b, partition) + i * g.spf <= FatSector(g, i, c) < FatStart(b, partition) + (i + 1) * g.spf <= DataStart(b, partition)
    {
      TableSector(b, partition, blocks, i, c);
    }
    forall c: nat, s: nat | InUse(g, c, s) ensures DataStart(b, partition) <= DataSector(g, c, s) < blocks {
      ClusterSector(b, partition, blocks, c, s);
    }
    forall c: nat, s: nat, d: nat, t: nat | InUse(g, c, s) && InUse(g, d, t) && DataSector(g, c, s) == DataSector(g, d, t)
      ensures c == d && s == t
    {
      ClusterSector(b, partition, blocks, c, s);
      ClusterSector(b, partition, blocks, d, t);
      SameSector(c - 2, s, d - 2, t, g.spc);
    }
  }

  /** The cluster and sector `k` sectors into the data area. */
  lemma SectorAt(k: nat, spc: nat, max: nat) returns (c: nat, s: nat)
    requires spc > 0 && max >= 2 && k < (max - 1) * spc
    ensures 2 <= c <= max && s < spc && (c - 2) * spc + s == k
  {
    var (q, r) := (k / spc, k % spc);
    assert k == q * spc + r;
    if q >= max - 1 { MulMono(max - 1, q, spc); }
    c, s := 2 + q, r;
  }

  /** Past 2^32 a sector in use wraps to the front of the device, below the data area. */
  lemma UnreachableWraps(b: Bpb, partition: nat, blocks: nat) returns (c: nat, s: nat)
    requires FromBpb(b, partition, blocks).Mounted?
    requires b.spc > 0 && b.spf > 0 && DataStart(b, partition) < blocks && !Reachable(b, partition, blocks)
    ensures var g := FromBpb(b, partition, blocks).g; InUse(g, c, s) && DataSector(g, c, s) < DataStart(b, partition)
  {
    Accepted(b, partition, blocks);
    var g := FromBpb(b, partition, blocks).g;
    hide FromBpb, MaxCluster;
    var data := DataStart(b, partition);
    hide DataStart;
    if data >= TWO32 {
      c, s := 2, 0;
    } else {
      c, s := SectorAt(TWO32 - data, b.spc, g.maxCluster);
    }
  }

  /** Main theorem: for every accepted volume, tables and clusters are apart and on the device if and only if the last
      sector in use has a 32-bit address. */
  lemma LaidOutIff(b: Bpb, partition: nat, blocks: nat)
    requires FromBpb(b, partition, blocks).Mounted?
    ensures b.spc > 0 && b.spf > 0 && DataStart(b, partition) < blocks
    ensures LaidOut(FromBpb(b, partition, blocks).g, b, partition, blocks) <==>
            DataStart(b, partition) + (MaxCluster(b, partition, blocks) - 1) * b.spc <= TWO32
  {
    Accepted(b, partition, blocks);
    hide FromBpb, MaxCluster, DataSector, DataStart;
    if Reachable(b, partition, blocks) {
      ReachableIsLaidOut(b, partition, blocks);
    } else {
      var c, s := UnreachableWraps(b, partition, blocks);
    }
  }

  /** So a device of at most 2^32 blocks is always safe. */
  lemma GeometryApart(b: Bpb, partition: nat, blocks: nat)
    requires FromBpb(b, partition, blocks).Mounted? && blocks <= TWO32
    ensures var g := FromBpb(b, partition, blocks).g; LaidOut(g, b, partition, blocks) && 2 <= g.root <= g.maxCluster <= CLUSTER_MAX
  {
    Accepted(b, partition, blocks);
    LaidOutIff(b, partition, blocks);
    var g := FromBpb(b, partition, blocks).g;
    hide FromBpb, LaidOut, MaxCluster;
    ClusterFits(b, DataStart(b, partition), blocks, g.maxCluster, g.maxCluster, b.spc - 1);
    assert (g.maxCluster - 1) * b.spc == (g.maxCluster - 2) * b.spc + b.spc;
  }

  lemma SameSector(c: nat, s: nat, d: nat, t: nat, spc: nat)
    requires s < spc && t < spc && c * spc + s == d * spc + t
    ensures c == d && s == t
  {
    if c < d { MulMono(c + 1, d, spc); }
    if d < c { MulMono(d + 1, c, spc); }
  }

  /** Larger devices that are accepted all the same: one whose start addresses are cut, and one whose start addresses are
      right but whose last clusters wrap. */
  lemma TruncatedTable()
    ensures var (b, partition, blocks) := (Bpb(512, 1, 1, 1, 1, 2), TWO32 - 1, TWO32 + 100);
            var r := FromBpb(b, partition, blocks);
            r.Mounted? && FatSector(r.g, 0, 2) == 0 && !LaidOut(r.g, b, partition, blocks)
  {
    var (b, partition, blocks) := (Bpb(512, 1, 1, 1, 1, 2), TWO32 - 1, TWO32 + 100);
    assert DataStart(b, partition) == TWO32 + 1 && (blocks - DataStart(b, partition)) / 1 == 99;
    LaidOutIff(b, partition, blocks);
  }

  lemma WrappedCluster()
    ensures var (b, blocks) := (Bpb(512, 128, 1, 1, 0x80000, 2), 0x2_0000_0000);
            var r := FromBpb(b, 0, blocks);
            r.Mounted? && r.g.dataLba == DataStart(b, 0) && r.g.fatLba == FatStart(b, 0) && !LaidOut(r.g, b, 0, blocks)
  {
    var (b, blocks) := (Bpb(512, 128, 1, 1, 0x80000, 2), 0x2_0000_0000);
    assert DataStart(b, 0) == 0x80001 && (blocks - 0x80001) / 128 == 0x3FF_EFFF;
    LaidOutIff(b, 0, blocks);
  }
}
