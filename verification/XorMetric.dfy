/** Node IDs, their XOR distance, and the bucket an ID falls into. */
module XorMetric {

  const LENGTH := 20

  type Hash = h: seq<bv8> | |h| == LENGTH witness seq(LENGTH, _ => 0)

  function Xor(a: bv8, b: bv8): bv8 { a ^ b }

  lemma XorFacts(a: bv8, b: bv8, t: bv8)
    ensures Xor(a, b) == Xor(b, a)
    ensures Xor(a, b) == 0 <==> a == b
    ensures Xor(a, t) == Xor(b, t) <==> a == b
  {
  }

  // ---------- Distance ----------

  /** Comparing the distances of a and b to the target from byte i on: negative if a is closer. */
  function DistFrom(target: Hash, a: Hash, b: Hash, i: nat): int
    requires i <= LENGTH
    decreases LENGTH - i
  {
    if i == LENGTH then 0
    else
      var da, db := Xor(a[i], target[i]), Xor(b[i], target[i]);
      if da > db then 1 else if da < db then -1 else DistFrom(target, a, b, i + 1)
  }

  function Dist(target: Hash, a: Hash, b: Hash): int
  {
    DistFrom(target, a, b, 0)
  }

  method Distcmp(target: Hash, a: Hash, b: Hash) returns (r: int)
    ensures r == Dist(target, a, b)
  {
    for i := 0 to LENGTH
      invariant Dist(target, a, b) == DistFrom(target, a, b, i)
    {
      var da, db := Xor(a[i], target[i]), Xor(b[i], target[i]);
      if da > db { return 1; } else if da < db { return -1; }
    }
    return 0;
  }

  lemma {:induction false} DistFromSymmetric(t: Hash, a: Hash, b: Hash, i: nat)
    requires i <= LENGTH
    ensures DistFrom(t, a, b, i) == -DistFrom(t, b, a, i) && -1 <= DistFrom(t, a, b, i) <= 1
    decreases LENGTH - i
  {
    if i < LENGTH { DistFromSymmetric(t, a, b, i + 1); }
  }

  lemma {:induction false} DistFromTransitive(t: Hash, a: Hash, b: Hash, c: Hash, i: nat)
    requires i <= LENGTH && DistFrom(t, a, b, i) <= 0 && DistFrom(t, b, c, i) <= 0
    ensures DistFrom(t, a, c, i) <= 0
    ensures DistFrom(t, a, b, i) < 0 || DistFrom(t, b, c, i) < 0 ==> DistFrom(t, a, c, i) < 0
    decreases LENGTH - i
  {
    if i < LENGTH && Xor(a[i], t[i]) == Xor(b[i], t[i]) == Xor(c[i], t[i]) {
      DistFromTransitive(t, a, b, c, i + 1);
    }
  }

  lemma {:induction false} DistFromZero(t: Hash, a: Hash, b: Hash, i: nat)
    requires i <= LENGTH
    ensures DistFrom(t, a, b, i) == 0 <==> a[i..] == b[i..]
    decreases LENGTH - i
  {
    hide Xor;
    if i < LENGTH {
      XorFacts(a[i], b[i], t[i]);
      DistFromZero(t, a, b, i + 1);
      assert a[i..] == [a[i]] + a[i + 1..] && b[i..] == [b[i]] + b[i + 1..];
    }
  }

  /** The comparison is a total order on distances, and only an ID itself is equally far. */
  lemma DistIsOrder(t: Hash, a: Hash, b: Hash, c: Hash)
    ensures Dist(t, a, b) == -Dist(t, b, a)
    ensures Dist(t, a, b) == 0 <==> a == b
    ensures Dist(t, a, b) <= 0 && Dist(t, b, c) <= 0 ==> Dist(t, a, c) <= 0
    ensures Dist(t, a, b) <= 0 && Dist(t, b, c) < 0 ==> Dist(t, a, c) < 0
    ensures Dist(t, a, b) < 0 && Dist(t, b, c) <= 0 ==> Dist(t, a, c) < 0
  {
    DistFromSymmetric(t, a, b, 0);
    DistFromZero(t, a, b, 0);
    if Dist(t, a, b) <= 0 && Dist(t, b, c) <= 0 { DistFromTransitive(t, a, b, c, 0); }
  }

  // ---------- Buckets ----------

  /** The position of the highest set bit, counted from the left; 7 also if no bit is set. */
  function FirstBit(v: bv8): (k: nat)
    ensures k < 8
  {
    if v & 0x80 > 0 then 0
    else if v & 0x40 > 0 then 1
    else if v & 0x20 > 0 then 2
    else if v & 0x10 > 0 then 3
    else if v & 0x08 > 0 then 4
    else if v & 0x04 > 0 then 5
    else if v & 0x02 > 0 then 6
    else 7
  }

  /** The first byte in which the IDs differ, or the last byte. */
  function DiffFrom(owner: Hash, id: Hash, i: nat): (d: nat)
    requires i < LENGTH
    ensures i <= d < LENGTH
    decreases LENGTH - i
  {
    if Xor(owner[i], id[i]) == 0 && i + 1 < LENGTH then DiffFrom(owner, id, i + 1) else i
  }

  function BucketId(owner: Hash, id: Hash): (j: nat)
    ensures j < 160
  {
    var d := DiffFrom(owner, id, 0);
    d * 8 + FirstBit(Xor(owner[d], id[d]))
  }

  method Bucketid(owner: Hash, id: Hash) returns (j: nat)
    ensures j == BucketId(owner, id)
  {
    var i := 0;
    while i + 1 < LENGTH && Xor(owner[i], id[i]) == 0
      invariant i < LENGTH && DiffFrom(owner, id, i) == DiffFrom(owner, id, 0)
    {
      i := i + 1;
    }
    var bitDiff := BitDiff(Xor(owner[i], id[i]));
    return i * 8 + (7 - bitDiff);
  }

  /** The switch over the masks. */
  method BitDiff(v: bv8) returns (bitDiff: int)
    ensures 7 - bitDiff == FirstBit(v)
  {
    bitDiff := 0;
    if v & 0x80 > 0 { bitDiff := 7; }
    else if v & 0x40 > 0 { bitDiff := 6; }
    else if v & 0x20 > 0 { bitDiff := 5; }
    else if v & 0x10 > 0 { bitDiff := 4; }
    else if v & 0x08 > 0 { bitDiff := 3; }
    else if v & 0x04 > 0 { bitDiff := 2; }
    else if v & 0x02 > 0 { bitDiff := 1; }
  }

  lemma {:induction false} DiffFromPrefix(owner: Hash, id: Hash, i: nat)
    requires i < LENGTH && owner[..i] == id[..i]
    ensures var d := DiffFrom(owner, id, i);
            && owner[..d] == id[..d]
            && (owner[d] == id[d] ==> owner == id && d == LENGTH - 1)
    decreases LENGTH - i
  {
    hide Xor;
    XorFacts(owner[i], id[i], 0);
    assert owner[..i + 1] == owner[..i] + [owner[i]] && id[..i + 1] == id[..i] + [id[i]];
    if owner[i] == id[i] && i + 1 < LENGTH {
      DiffFromPrefix(owner, id, i + 1);
    } else {
      assert i + 1 == LENGTH ==> owner[..i + 1] == owner && id[..i + 1] == id;
    }
  }

  // ---------- The bucket is the length of the shared prefix ----------

  /** Bit k of a byte, from the left. */
  predicate ByteBit(v: bv8, k: nat)
    requires k < 8
  {
    match k
    case 0 => v & 0x80 != 0 case 1 => v & 0x40 != 0 case 2 => v & 0x20 != 0 case 3 => v & 0x10 != 0
    case 4 => v & 0x08 != 0 case 5 => v & 0x04 != 0 case 6 => v & 0x02 != 0 case 7 => v & 0x01 != 0
  }

  /** Bit j of an ID, from the left. */
  predicate Bit(h: Hash, j: nat)
    requires j < 160
  {
    ByteBit(h[j / 8], j % 8)
  }

  lemma FirstBitDiffers(a: bv8, b: bv8, k: nat)
    requires k < 8
    ensures k < FirstBit(Xor(a, b)) ==> ByteBit(a, k) == ByteBit(b, k)
    ensures a != b && k == FirstBit(Xor(a, b)) ==> ByteBit(a, k) != ByteBit(b, k)
  {
  }

  /** For an ID other than the owner's, the bucket index is the number of leading bits they share. */
  lemma BucketIsSharedPrefix(owner: Hash, id: Hash, k: nat)
    requires owner != id && k < 160
    ensures k < BucketId(owner, id) ==> Bit(owner, k) == Bit(id, k)
    ensures k == BucketId(owner, id) ==> Bit(owner, k) != Bit(id, k)
  {
    hide DiffFrom, FirstBit, ByteBit, Xor;
    DiffFromPrefix(owner, id, 0);
    var d := DiffFrom(owner, id, 0);
    FirstBitDiffers(owner[d], id[d], k % 8);
    assert k == k / 8 * 8 + k % 8;
    if k / 8 < d {
      assert owner[k / 8] == owner[..d][k / 8] == id[..d][k / 8] == id[k / 8];
    }
  }

  /** The owner's own ID would go into the last bucket. */
  lemma OwnBucket(owner: Hash)
    ensures BucketId(owner, owner) == 159
  {
    hide DiffFrom, Xor;
    DiffFromPrefix(owner, owner, 0);
    XorFacts(owner[19], owner[19], 0);
  }

  // ---------- Buckets agree with the metric ----------

  lemma FirstBitOrders(x: bv8, y: bv8)
    ensures FirstBit(x) > FirstBit(y) ==> x < y
    ensures x == 0 && y != 0 ==> x < y
  {
  }

  lemma {:induction false} SharedBytes(root: Hash, a: Hash, b: Hash, i: nat, n: nat)
    requires i <= n <= LENGTH && a[..n] == root[..n] && b[..n] == root[..n]
    ensures DistFrom(root, a, b, i) == DistFrom(root, a, b, n)
    decreases n - i
  {
    if i < n {
      assert a[i] == a[..n][i] == root[..n][i] == b[..n][i] == b[i];
      SharedBytes(root, a, b, i + 1, n);
    }
  }

  /** A node in a farther bucket is strictly closer to the root. */
  lemma BucketOrdersDistance(root: Hash, a: Hash, b: Hash)
    requires BucketId(root, a) > BucketId(root, b)
    ensures Dist(root, a, b) < 0
  {
    hide DiffFrom, FirstBit, Xor;
    DiffFromPrefix(root, a, 0);
    DiffFromPrefix(root, b, 0);
    var i, j := DiffFrom(root, b, 0), DiffFrom(root, a, 0);
    assert i <= j;
    assert a[..i] == a[..j][..i] == root[..j][..i] == root[..i];
    SharedBytes(root, a, b, 0, i);
    XorFacts(root[i], a[i], 0);
    XorFacts(root[i], b[i], 0);
    FirstBitOrders(Xor(a[i], root[i]), Xor(b[i], root[i]));
    if i < j { assert a[i] == a[..j][i] == root[..j][i] == root[i]; }
  }
}
