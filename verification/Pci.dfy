/**
  Ranking peer devices by PCI topology. A device's path lists the bridges above it, nearest
  first, in sixteen slots; the distance of a GPU and a peer counts the bridges between them, and
  is packed with the peer's bandwidth into one number whose order is the preference.
*/
module Pci {

  const MAX_PCI_DEPTH := 16
  const UINT_MAX := 0xFFFF_FFFF
  const NO_ROOT_PORT := UINT_MAX - 1
  const CROSS_ROOT := 127
  const MAX_BANDWIDTH := 160

  /** A row of the path table: bridges, then zeros; a device without a root port has a marker in
      the first slot; a row without a device is all zeros. */
  predicate Row(s: seq<int>) {
    && |s| == MAX_PCI_DEPTH
    && (forall i, j | 0 <= i < j < MAX_PCI_DEPTH && s[i] == 0 :: s[j] == 0)
    && (forall i | 0 < i < MAX_PCI_DEPTH :: s[i] != NO_ROOT_PORT)
    && (s[0] == NO_ROOT_PORT ==> s[1] == 0)
  }

  function Depth(s: seq<int>): nat {
    if |s| == 0 || s[0] == 0 then 0 else 1 + Depth(s[1..])
  }

  lemma {:induction false} DepthIs(s: seq<int>, n: nat)
    requires n <= |s| && (forall i | 0 <= i < n :: s[i] != 0) && (n < |s| ==> s[n] == 0)
    ensures Depth(s) == n
  {
    if n > 0 { DepthIs(s[1..], n - 1); }
  }

  lemma {:induction false} DepthFirstZero(s: seq<int>)
    ensures Depth(s) <= |s| && (forall i | 0 <= i < Depth(s) :: s[i] != 0) && (Depth(s) < |s| ==> s[Depth(s)] == 0)
  {
    if |s| > 0 && s[0] != 0 { DepthFirstZero(s[1..]); }
  }

  /** The bridges above a device, nearest first. */
  function Bridges(s: seq<int>): (a: seq<int>)
    requires Row(s)
    ensures |a| <= MAX_PCI_DEPTH
  {
    DepthFirstZero(s);
    if s[0] == NO_ROOT_PORT then [] else s[..Depth(s)]
  }

  /** How many bridges two paths share at their upper ends. */
  function CommonSuffix(a: seq<int>, b: seq<int>): (n: nat)
    ensures n <= |a| && n <= |b|
  {
    if |a| == 0 || |b| == 0 || a[|a| - 1] != b[|b| - 1] then 0
    else 1 + CommonSuffix(a[..|a| - 1], b[..|b| - 1])
  }

  /** The distance through the lowest common bridge: the bridges below it on both sides and itself,
      and with ACS redirection the way up to the root port too, unless the GPU sits right below. */
  function Through(a: seq<int>, b: seq<int>, acs: int -> bool): nat {
    var n := CommonSuffix(a, b);
    (|a| - n) + (|b| - n) + 1 + if n > 0 && |a| > n && acs(a[|a| - n]) then n - 1 else 0
  }

  /** The distance across root ports. A peer path that fills its row counts for nothing. */
  function Across(a: seq<int>, b: seq<int>, local: bool): nat {
    (if local then CROSS_ROOT else 2 * CROSS_ROOT) + |a| + (if |b| == MAX_PCI_DEPTH then 0 else |b|) + 1
  }

  /** `b` up to and including bridge `x`. */
  function UpTo(b: seq<int>, x: int): (c: seq<int>)
    requires x in b
    ensures 0 < |c| <= |b| && c == b[..|c|] && c[|c| - 1] == x && x !in c[..|c| - 1]
  {
    if b[0] == x then [x] else [b[0]] + UpTo(b[1..], x)
  }

  /** The peer's path contains the GPU's topmost bridge. */
  predicate SharesRoot(g: seq<int>, p: seq<int>)
    requires Row(g) && Row(p)
  {
    g[0] != 0 && p[0] != 0 && |Bridges(g)| > 0 && Bridges(g)[|Bridges(g)| - 1] in Bridges(p)
  }

  /** The distance of a GPU and a peer. */
  function DistanceOf(g: seq<int>, p: seq<int>, local: bool, acs: int -> bool): nat
    requires Row(g) && Row(p)
  {
    var a, b := Bridges(g), Bridges(p);
    if g[0] == 0 || p[0] == 0 then UINT_MAX
    else if SharesRoot(g, p) then Through(a, UpTo(b, a[|a| - 1]), acs)
    else Across(a, b, local)
  }

  /** The distance, from the path rows, as the driver scans them. */
  method Distance(g: seq<int>, p: seq<int>, local: bool, acs: int -> bool) returns (d: nat)
    requires Row(g) && Row(p)
    ensures d == DistanceOf(g, p, local, acs)
  {
    if g[0] == 0 {
      return UINT_MAX;
    }
    if p[0] == 0 {
      return UINT_MAX;
    }
    var top, i, gdepth := HighestBridge(g);
    var common, j, pdepth := ScanPeer(p, top);
    SharesRootIs(g, p, top);
    hide Bridges, Row, Through, UpTo, SharesRoot;
    if !common {
      d := (if local then CROSS_ROOT else 2 * CROSS_ROOT) + gdepth + pdepth + 1;
    } else {
      d := WalkDown(g, p, i, j, acs);
    }
  }

  lemma SharesRootIs(g: seq<int>, p: seq<int>, top: int)
    requires Row(g) && Row(p) && g[0] != 0 && p[0] != 0
    requires g[0] == NO_ROOT_PORT ==> top == NO_ROOT_PORT
    requires g[0] != NO_ROOT_PORT ==> |Bridges(g)| > 0 && top == Bridges(g)[|Bridges(g)| - 1]
    ensures SharesRoot(g, p) <==> top in Bridges(p)
    ensures SharesRoot(g, p) ==> g[0] != NO_ROOT_PORT
  {
    DepthFirstZero(p);
  }

  /** The topmost bridge of a row, scanned from the top: its value, its slot, and the depth. */
  method HighestBridge(g: seq<int>) returns (top: int, i: int, gdepth: nat)
    requires Row(g) && g[0] != 0
    ensures top != 0 && 0 <= i < MAX_PCI_DEPTH && gdepth == |Bridges(g)|
    ensures g[0] == NO_ROOT_PORT ==> top == NO_ROOT_PORT && gdepth == 0
    ensures g[0] != NO_ROOT_PORT ==>
              gdepth == i + 1 && Bridges(g) == g[..i + 1] && top == g[i] && top != NO_ROOT_PORT
  {
    top, i, gdepth := 0, 0, 0;
    if g[0] != NO_ROOT_PORT {
      i := MAX_PCI_DEPTH - 1;
      while i >= 0
        invariant 0 <= i < MAX_PCI_DEPTH
        invariant forall k | i < k < MAX_PCI_DEPTH :: g[k] == 0
      {
        if g[i] == 0 {
          gdepth := i;
          i := i - 1;
          continue;
        }
        top := g[i];
        gdepth := i + 1;
        break;
      }
      DepthIs(g, i + 1);
    } else {
      top := NO_ROOT_PORT;
    }
  }

  /** Scan a peer's row from the bottom for a bridge. */
  method ScanPeer(p: seq<int>, top: int) returns (common: bool, j: int, pdepth: nat)
    requires Row(p) && p[0] != 0 && top != 0
    ensures common <==> top in Bridges(p)
    ensures common ==> 0 <= j < |Bridges(p)| && p[..j + 1] == UpTo(Bridges(p), top) && pdepth == j + 1
    ensures !common ==> pdepth == if |Bridges(p)| == MAX_PCI_DEPTH then 0 else |Bridges(p)|
  {
    common, j, pdepth := false, 0, 0;
    ghost var b := Bridges(p);
    if p[0] != NO_ROOT_PORT {
      DepthFirstZero(p);
      while j < MAX_PCI_DEPTH
        invariant 0 <= j <= |b| && top !in p[..j] && pdepth == 0 && !common
      {
        if p[j] == 0 {
          pdepth := j;
          break;
        }
        if top == p[j] {
          common := true;
          pdepth := j + 1;
          UpToIs(b, top, j);
          break;
        }
        j := j + 1;
      }
    }
  }

  lemma UpToIs(b: seq<int>, x: int, j: nat)
    requires j < |b| && b[j] == x && x !in b[..j]
    ensures UpTo(b, x) == b[..j + 1]
  {
    var c := UpTo(b, x);
    assert b[|c| - 1] == x && (j < |c| ==> c[j] == x);
  }

  lemma CommonStep(g: seq<int>, p: seq<int>, i: nat, j: nat)
    requires i < |g| && j < |p|
    ensures CommonSuffix(g[..i + 1], p[..j + 1]) == if g[i] == p[j] then 1 + CommonSuffix(g[..i], p[..j]) else 0
  {
    assert g[..i + 1][..i] == g[..i] && p[..j + 1][..j] == p[..j];
  }

  /** Walk both rows down from a common bridge while they agree. */
  method WalkDown(g: seq<int>, p: seq<int>, iMax: nat, jMax: nat, acs: int -> bool) returns (d: nat)
    requires iMax < |g| && jMax < |p| && g[iMax] == p[jMax]
    ensures d == Through(g[..iMax + 1], p[..jMax + 1], acs)
  {
    hide CommonSuffix;
    var i, j, lowest := iMax, jMax, -1;
    var gdepth, pdepth := iMax + 1, jMax + 1;
    d := UINT_MAX;
    ghost var n := CommonSuffix(g[..iMax + 1], p[..jMax + 1]);
    while i >= 0 && j >= 0
      invariant -1 <= i <= iMax && -1 <= j <= jMax && gdepth == i + 1 && pdepth == j + 1
      invariant iMax - i == jMax - j
      invariant n == (iMax - i) + CommonSuffix(g[..i + 1], p[..j + 1])
      invariant i < iMax ==> lowest == i + 1 && d == gdepth + pdepth + 1
      invariant i == iMax ==> lowest == -1
    {
      CommonStep(g, p, i, j);
      if g[i] == p[j] {
        lowest := i;
        i, gdepth := i - 1, gdepth - 1;
        j, pdepth := j - 1, pdepth - 1;
        d := gdepth + pdepth + 1;
        continue;
      }
      break;
    }
    if lowest > 0 && acs(g[lowest]) {
      d := d + (iMax - lowest);
    }
  }

  // ------------------------------------------------- what the distance means

  /** The common suffix is common, and cannot be longer. */
  lemma {:induction false} CommonSuffixMaximal(a: seq<int>, b: seq<int>, n: nat)
    ensures n <= CommonSuffix(a, b) <==> n <= |a| && n <= |b| && a[|a| - n..] == b[|b| - n..]
  {
    if n > 0 && |a| > 0 && |b| > 0 {
      var c, d := a[..|a| - 1], b[..|b| - 1];
      CommonSuffixMaximal(c, d, n - 1);
      if n <= |a| && n <= |b| {
        assert a[|a| - n..] == c[|c| - (n - 1)..] + [a[|a| - 1]];
        assert b[|b| - n..] == d[|d| - (n - 1)..] + [b[|b| - 1]];
        if a[|a| - n..] == b[|b| - n..] {
          assert a[|a| - n..][n - 1] == b[|b| - n..][n - 1];
          assert a[|a| - n..][..n - 1] == b[|b| - n..][..n - 1];
        }
      }
    }
  }

  lemma {:induction false} CommonSuffixSymmetric(a: seq<int>, b: seq<int>)
    ensures CommonSuffix(a, b) == CommonSuffix(b, a)
    decreases |a|
  {
    if |a| > 0 && |b| > 0 { CommonSuffixSymmetric(a[..|a| - 1], b[..|b| - 1]); }
  }

  /** The paths climb one tree of bridges: `up` is the bridge above a bridge, zero above a root
      port. */
  ghost predicate Climbs(a: seq<int>, up: int -> int) {
    && |a| > 0
    && (forall i | 0 <= i < |a| :: a[i] != 0)
    && (forall i | 0 <= i < |a| - 1 :: up(a[i]) == a[i + 1])
    && up(a[|a| - 1]) == 0
  }

  lemma Above(a: seq<int>, up: int -> int, i: nat)
    requires Climbs(a, up) && i < |a|
    ensures up(a[i]) == if i + 1 < |a| then a[i + 1] else 0
    ensures up(a[i]) == 0 <==> i + 1 == |a|
  {
  }

  /** In a tree, two paths that meet run together from there to the same root port. */
  lemma {:induction false} MeetAndStay(a: seq<int>, b: seq<int>, up: int -> int, i: nat, j: nat)
    requires Climbs(a, up) && Climbs(b, up) && i < |a| && j < |b| && a[i] == b[j]
    ensures |a| - i == |b| - j && a[i..] == b[j..]
    decreases |a| - i
  {
    Above(a, up, i);
    Above(b, up, j);
    if i + 1 < |a| {
      MeetAndStay(a, b, up, i + 1, j + 1);
      assert a[i..] == [a[i]] + a[i + 1..] && b[j..] == [b[j]] + b[j + 1..];
    }
  }

  /** So the common suffix is every bridge the two paths share: its first bridge is the lowest
      common one. */
  lemma LowestCommonBridge(a: seq<int>, b: seq<int>, up: int -> int, i: nat)
    requires Climbs(a, up) && Climbs(b, up) && i < |a|
    ensures a[i] in b <==> i >= |a| - CommonSuffix(a, b)
  {
    var n := CommonSuffix(a, b);
    if a[i] in b {
      var j :| 0 <= j < |b| && b[j] == a[i];
      MeetAndStay(a, b, up, i, j);
      CommonSuffixMaximal(a, b, |a| - i);
    }
    CommonSuffixMaximal(a, b, n);
    if i >= |a| - n {
      assert a[i] == a[|a| - n..][i - (|a| - n)] == b[|b| - n..][i - (|a| - n)];
    }
  }

  /** In a tree the scan finds the shared root port at the top of the peer's path. */
  lemma RootPortOnTop(a: seq<int>, b: seq<int>, up: int -> int)
    requires Climbs(a, up) && Climbs(b, up)
    ensures a[|a| - 1] in b <==> a[|a| - 1] == b[|b| - 1]
    ensures a[|a| - 1] in b ==> UpTo(b, a[|a| - 1]) == b && CommonSuffix(a, b) > 0
  {
    if a[|a| - 1] in b {
      var c := UpTo(b, a[|a| - 1]);
      MeetAndStay(a, b, up, |a| - 1, |c| - 1);
    }
  }

  lemma TreeThrough(g: seq<int>, p: seq<int>, up: int -> int, local: bool, acs: int -> bool)
    requires Row(g) && Row(p) && Climbs(Bridges(g), up) && Climbs(Bridges(p), up) && SharesRoot(g, p)
    ensures CommonSuffix(Bridges(g), Bridges(p)) > 0
    ensures DistanceOf(g, p, local, acs) == Through(Bridges(g), Bridges(p), acs)
  {
    RootPortOnTop(Bridges(g), Bridges(p), up);
  }

  /** So there the distance is one plus the bridges below the lowest common bridge on either side,
      and with ACS on that bridge and a GPU not right below it, the bridges above it too. */
  lemma TreeDistance(g: seq<int>, p: seq<int>, up: int -> int, local: bool, acs: int -> bool)
    requires Row(g) && Row(p) && Climbs(Bridges(g), up) && Climbs(Bridges(p), up)
    ensures var a, b := Bridges(g), Bridges(p);
            var n := CommonSuffix(a, b);
            && (SharesRoot(g, p) <==> a[|a| - 1] == b[|b| - 1])
            && (SharesRoot(g, p) ==>
                  && n > 0
                  && DistanceOf(g, p, local, acs) ==
                     |a| + |b| - 2 * n + 1 + (if acs(a[|a| - n]) && |a| > n then n - 1 else 0))
  {
    RootPortOnTop(Bridges(g), Bridges(p), up);
  }

  lemma ThroughSymmetric(a: seq<int>, b: seq<int>, acs: int -> bool)
    ensures var n := CommonSuffix(a, b);
            Through(a, b, acs) == Through(b, a, acs) <==>
              !(n > 1 && acs(a[|a| - n]) && (|a| == n) != (|b| == n))
  {
    var n := CommonSuffix(a, b);
    CommonSuffixSymmetric(a, b);
    CommonSuffixMaximal(a, b, n);
    if n > 0 { assert a[|a| - n..][0] == b[|b| - n..][0]; }
  }

  /** In a tree the distance of two devices below one root port is the same seen from either side,
      unless ACS applies to one side only: the common bridges are more than the root port, the
      lowest has ACS, and exactly one of the two devices sits right below it. */
  lemma SymmetricExactly(g: seq<int>, p: seq<int>, up: int -> int, local: bool, acs: int -> bool)
    requires Row(g) && Row(p) && Climbs(Bridges(g), up) && Climbs(Bridges(p), up) && SharesRoot(g, p)
    ensures var a, b := Bridges(g), Bridges(p);
            var n := CommonSuffix(a, b);
            && SharesRoot(p, g) && n > 0
            && (DistanceOf(g, p, local, acs) == DistanceOf(p, g, local, acs) <==>
                  !(n > 1 && acs(a[|a| - n]) && (|a| == n) != (|b| == n)))
  {
    TreeThrough(g, p, up, local, acs);
    RootPortOnTop(Bridges(g), Bridges(p), up);
    assert SharesRoot(p, g);
    TreeThrough(p, g, up, local, acs);
    hide Through, CommonSuffix, DistanceOf, SharesRoot, Bridges, Row, Climbs;
    ThroughSymmetric(Bridges(g), Bridges(p), acs);
  }

  /** The row of a path. */
  function Padded(a: seq<int>): (s: seq<int>)
    requires |a| <= MAX_PCI_DEPTH
    ensures |s| == MAX_PCI_DEPTH
  {
    a + seq(MAX_PCI_DEPTH - |a|, _ => 0)
  }

  /** Every path of bridges fits in a row and is read back from it. */
  lemma PaddedRow(a: seq<int>)
    requires 0 < |a| <= MAX_PCI_DEPTH && forall i | 0 <= i < |a| :: a[i] != 0 && a[i] != NO_ROOT_PORT
    ensures Row(Padded(a)) && Bridges(Padded(a)) == a
  {
    DepthIs(Padded(a), |a|);
  }

  /** A GPU right below a switch, bridge 2, and a peer one bridge further down. */
  function NearRow(): seq<int> { Padded([2, 1]) }
  function FarRow(): seq<int> { Padded([3, 2, 1]) }
  function PairUp(x: int): int { if x == 3 then 2 else if x == 2 then 1 else 0 }

  lemma PairClimbs()
    ensures Climbs([2, 1], PairUp) && Climbs([3, 2, 1], PairUp)
  {
  }

  /** With ACS on that switch the GPU finds the peer at distance 2; the other way round it is 3. */
  lemma AsymmetricPair(acs: int -> bool)
    requires acs(2)
    ensures Row(NearRow()) && Row(FarRow())
    ensures Climbs(Bridges(NearRow()), PairUp) && Climbs(Bridges(FarRow()), PairUp)
    ensures DistanceOf(NearRow(), FarRow(), true, acs) == 2 && DistanceOf(FarRow(), NearRow(), true, acs) == 3
  {
    PaddedRow([2, 1]);
    PaddedRow([3, 2, 1]);
    PairClimbs();
    TwoCommon();
    hide Row, Bridges, Climbs, DistanceOf, CommonSuffix, SharesRoot, Padded;
    TreeDistance(NearRow(), FarRow(), PairUp, true, acs);
    TreeDistance(FarRow(), NearRow(), PairUp, true, acs);
  }

  lemma TwoCommon()
    ensures CommonSuffix([2, 1], [3, 2, 1]) == 2 && CommonSuffix([3, 2, 1], [2, 1]) == 2
  {
    CommonSuffixSymmetric([2, 1], [3, 2, 1]);
    assert [2, 1][..1] == [2] && [3, 2, 1][..2] == [3, 2];
    assert [2][..0] == [] && [3, 2][..1] == [3];
  }

  /** Every distance below a shared root port is smaller than every one across root ports on the
      same node, and those are smaller than every one across nodes. */
  lemma DistancesBanded(a: seq<int>, b: seq<int>, local: bool, acs: int -> bool)
    requires |a| <= MAX_PCI_DEPTH && |b| <= MAX_PCI_DEPTH
    ensures CommonSuffix(a, b) > 0 ==> 1 <= Through(a, b, acs) <= 31
    ensures if local then 128 <= Across(a, b, local) <= 159 else 255 <= Across(a, b, local) <= 286
  {
  }

  lemma DistanceBanded(g: seq<int>, p: seq<int>, local: bool, acs: int -> bool)
    requires Row(g) && Row(p)
    ensures var d := DistanceOf(g, p, local, acs);
            if SharesRoot(g, p) then 1 <= d <= 31
            else if g[0] == 0 || p[0] == 0 then d == UINT_MAX
            else if local then 128 <= d <= 159 else 255 <= d <= 286
  {
    var a, b := Bridges(g), Bridges(p);
    DistancesBanded(a, b, local, acs);
    if SharesRoot(g, p) { DistancesBanded(a, UpTo(b, a[|a| - 1]), local, acs); }
  }

  /** Across root ports, on the same node or not, one bridge more above either device is one more
      of distance, except that sixteen bridges above the peer count for none. */
  lemma AcrossExactly(g: seq<int>, p: seq<int>, g': seq<int>, p': seq<int>, local: bool, acs: int -> bool)
    requires Row(g) && Row(p) && Row(g') && Row(p') && g[0] != 0 && p[0] != 0 && g'[0] != 0 && p'[0] != 0
    requires !SharesRoot(g, p) && !SharesRoot(g', p')
    ensures var d, d' := DistanceOf(g, p, local, acs), DistanceOf(g', p', local, acs);
            && (Bridges(g) == Bridges(p) == [] ==> d == if local then 128 else 255)
            && (|Bridges(p)| < MAX_PCI_DEPTH && |Bridges(p')| < MAX_PCI_DEPTH ==>
                  d' - d == |Bridges(g')| - |Bridges(g)| + |Bridges(p')| - |Bridges(p)|)
            && (|Bridges(p)| == MAX_PCI_DEPTH && Bridges(p') == [] ==> d' - d == |Bridges(g')| - |Bridges(g)|)
  {
    hide Row, Bridges;
  }

  // ------------------------------------------------- ranking

  /** Bitwise or, and the 32-bit shift by half a word. */
  function Or(a: nat, b: nat): nat {
    if a == 0 && b == 0 then 0
    else (if a % 2 == 1 || b % 2 == 1 then 1 else 0) + 2 * Or(a / 2, b / 2)
  }

  function ShiftHalf(d: nat): nat { (d * 0x1_0000) % 0x1_0000_0000 }

  function Pow2(k: nat): nat {
    if k == 0 then 1 else 2 * Pow2(k - 1)
  }

  lemma {:induction false} OrZero(b: nat)
    ensures Or(0, b) == b
  {
    if b > 0 { OrZero(b / 2); }
  }

  /** Numbers without a bit in common are joined by adding them. */
  lemma {:induction false} OrDisjoint(low: nat, high: nat, k: nat)
    requires low < Pow2(k)
    ensures Or(low, high * Pow2(k)) == low + high * Pow2(k)
  {
    if k == 0 {
      OrZero(high);
    } else {
      var h := high * Pow2(k - 1);
      assert high * Pow2(k) == 2 * h;
      OrDisjoint(low / 2, high, k - 1);
      if low == 0 && h == 0 { OrZero(0); }
    }
  }

  /** The packed rank: the distance in the upper half, the bandwidth that is missing in the
      lower. */
  function Rank(dist: nat, bw: nat): nat
    requires bw <= MAX_BANDWIDTH
  {
    Or(MAX_BANDWIDTH - bw, ShiftHalf(dist))
  }

  /** What is left of a distance in the upper half. */
  function UpperHalf(dist: nat): nat { dist % 0x1_0000 }

  lemma ShiftKeepsLow(d: nat)
    ensures ShiftHalf(d) == UpperHalf(d) * 0x1_0000
  {
    var q := d / 0x1_0000;
    assert d * 0x1_0000 == q * 0x1_0000_0000 + UpperHalf(d) * 0x1_0000;
  }

  lemma RankIsSum(dist: nat, bw: nat)
    requires bw <= MAX_BANDWIDTH
    ensures Rank(dist, bw) == (MAX_BANDWIDTH - bw) + UpperHalf(dist) * 0x1_0000
  {
    ShiftKeepsLow(dist);
    assert Pow2(16) == 0x1_0000 by {
      assert Pow2(4) == 16;
      assert Pow2(8) == 256;
      assert Pow2(12) == 4096;
    }
    OrDisjoint(MAX_BANDWIDTH - bw, UpperHalf(dist), 16);
  }

  /** Ranks order peers by distance first and by larger bandwidth second; a peer without a path,
      at distance UINT_MAX, comes last. */
  lemma RankOrder(d: nat, bw: nat, e: nat, bx: nat)
    requires (d < 0xFFFF || d == UINT_MAX) && (e < 0xFFFF || e == UINT_MAX)
    requires bw <= MAX_BANDWIDTH && bx <= MAX_BANDWIDTH
    ensures Rank(d, bw) < Rank(e, bx) <==> d < e || (d == e && bw > bx)
    ensures Rank(d, bw) == Rank(e, bx) <==> d == e && bw == bx
  {
    hide Rank;
    RankIsSum(d, bw);
    RankIsSum(e, bx);
    HalvesOrder(UpperHalf(d), MAX_BANDWIDTH - bw, UpperHalf(e), MAX_BANDWIDTH - bx);
    UpperHalfOrder(d, e);
  }

  lemma UpperHalfOrder(d: nat, e: nat)
    requires (d < 0xFFFF || d == UINT_MAX) && (e < 0xFFFF || e == UINT_MAX)
    ensures (UpperHalf(d) < UpperHalf(e) <==> d < e) && (UpperHalf(d) == UpperHalf(e) <==> d == e)
  {
  }

  lemma HalvesOrder(h: nat, low: nat, k: nat, lw: nat)
    requires low < 0x1_0000 && lw < 0x1_0000
    ensures low + h * 0x1_0000 < lw + k * 0x1_0000 <==> h < k || (h == k && low < lw)
    ensures low + h * 0x1_0000 == lw + k * 0x1_0000 <==> h == k && low == lw
  {
  }

  datatype Cell = Cell(rank: nat, dist: nat, bw: nat, cross: bool, count: nat)

  function CellOf(dist: nat, width: nat, speed: nat): Cell {
    var bw := if width * speed <= MAX_BANDWIDTH then width * speed else MAX_BANDWIDTH;
    Cell(Rank(dist, bw), dist, bw, dist >= CROSS_ROOT, 0)
  }

  /** Fill the matrix of ranks from the path tables of GPUs and peers, the peers' link widths and
      speeds, and which pairs are on one node. */
  method FillMatrix(gpus: seq<seq<int>>, peers: seq<seq<int>>, links: seq<(nat, nat)>,
                    local: (nat, nat) -> bool, acs: int -> bool, m: array2<Cell>)
    requires m.Length0 == |gpus| && m.Length1 == |peers| == |links|
    requires (forall i | 0 <= i < |gpus| :: Row(gpus[i])) && (forall j | 0 <= j < |peers| :: Row(peers[j]))
    modifies m
    ensures forall i, j | 0 <= i < |gpus| && 0 <= j < |peers| ::
              m[i, j] == CellOf(DistanceOf(gpus[i], peers[j], local(i, j), acs), links[j].0, links[j].1)
  {
    hide DistanceOf, CellOf, Row;
    for i := 0 to |gpus|
      invariant forall k, j | 0 <= k < i && 0 <= j < |peers| ::
                  m[k, j] == CellOf(DistanceOf(gpus[k], peers[j], local(k, j), acs), links[j].0, links[j].1)
    {
      for j := 0 to |peers|
        invariant forall k, l | 0 <= k < i && 0 <= l < |peers| ::
                    m[k, l] == CellOf(DistanceOf(gpus[k], peers[l], local(k, l), acs), links[l].0, links[l].1)
        invariant forall l | 0 <= l < j ::
                    m[i, l] == CellOf(DistanceOf(gpus[i], peers[l], local(i, l), acs), links[l].0, links[l].1)
      {
        var d := Distance(gpus[i], peers[j], local(i, j), acs);
        m[i, j] := CellOf(d, links[j].0, links[j].1);
      }
    }
  }

  /** In the matrix a peer is preferred exactly when it is nearer, or as near and with more
      bandwidth, the product of its link's width and speed, up to 160; one that shares a root port
      comes before any that does not, and one without a path comes last. */
  lemma PreferenceExact(g: seq<int>, p: seq<int>, q: seq<int>, lp: bool, lq: bool, acs: int -> bool,
                        wp: nat, sp: nat, wq: nat, sq: nat)
    requires Row(g) && Row(p) && Row(q)
    ensures var x := CellOf(DistanceOf(g, p, lp, acs), wp, sp);
            var y := CellOf(DistanceOf(g, q, lq, acs), wq, sq);
            && x.dist == DistanceOf(g, p, lp, acs)
            && (x.rank < y.rank <==>
                  x.dist < y.dist || (x.dist == y.dist && wq * sq < wp * sp && wq * sq < MAX_BANDWIDTH))
            && (x.cross <==> !SharesRoot(g, p))
            && (SharesRoot(g, p) && !SharesRoot(g, q) ==> x.rank < y.rank)
  {
    hide DistanceOf, SharesRoot, Row, Rank;
    DistanceBanded(g, p, lp, acs);
    DistanceBanded(g, q, lq, acs);
    var x := CellOf(DistanceOf(g, p, lp, acs), wp, sp);
    var y := CellOf(DistanceOf(g, q, lq, acs), wq, sq);
    RankOrder(x.dist, x.bw, y.dist, y.bw);
  }
}
