/**
 * Day 13: distress-signal packets and their three-way comparison.
 *
 * A value is an integer or a list of values. `Compare` is the structural
 * comparison of the puzzle: integers by size, lists element by element and
 * then by length, and a lone integer against a list as a one-element list.
 */
module PacketOrder {
  import opened Wrappers

  datatype Value = Int(n: int) | List(items: seq<Value>)

  datatype Decision = RightOrder | WrongOrder | NoDecision

  /** Number of constructors in a value; used as the termination measure. */
  function Size(v: Value): (s: nat)
    ensures s >= 1
    decreases v
  {
    match v
    case Int(_) => 1
    case List(items) => 1 + SizeSeq(items)
  }

  function SizeSeq(vs: seq<Value>): (s: nat)
    ensures s >= |vs|
    decreases vs
  {
    if vs == [] then 0 else Size(vs[0]) + SizeSeq(vs[1..])
  }

  lemma SizeSeqSingleton(v: Value)
    ensures SizeSeq([v]) == Size(v)
  {
    assert [v][1..] == [];
  }

  /**
   * `compare(left, right)`. Two integers decide by size; two lists go through
   * `CompareLists`; an integer against a list is retried as a one-element list,
   * which lands in the list-list case (see `Promotion`).
   */
  function Compare(left: Value, right: Value): Decision
    decreases Size(left) + Size(right), 0
  {
    match (left, right)
    case (Int(a), Int(b)) => if a < b then RightOrder else if a > b then WrongOrder else NoDecision
    case (List(ls), List(rs)) => CompareLists(ls, rs)
    case (Int(_), List(rs)) => SizeSeqSingleton(left); CompareLists([left], rs)
    case (List(ls), Int(_)) => SizeSeqSingleton(right); CompareLists(ls, [right])
  }

  /**
   * The index loop of `compare` on two lists: the right list running out first
   * is the wrong order, the first pair that decides decides, and a left list
   * that runs out first is the right order.
   */
  function CompareLists(ls: seq<Value>, rs: seq<Value>): Decision
    decreases SizeSeq(ls) + SizeSeq(rs), 1
  {
    if ls == [] then (if |rs| > 0 then RightOrder else NoDecision)
    else if rs == [] then WrongOrder
    else
      var cmp := Compare(ls[0], rs[0]);
      if cmp == NoDecision then CompareLists(ls[1..], rs[1..]) else cmp
  }

  lemma CompareInts(a: int, b: int)
    ensures Compare(Int(a), Int(b)) == RightOrder <==> a < b
    ensures Compare(Int(a), Int(b)) == WrongOrder <==> a > b
    ensures Compare(Int(a), Int(b)) == NoDecision <==> a == b
  {
  }

  /** Mixed operands: the integer is wrapped in a one-element list and the comparison retried. */
  lemma Promotion(n: int, v: Value)
    ensures v.List? ==> Compare(Int(n), v) == Compare(List([Int(n)]), v)
    ensures v.List? ==> Compare(v, Int(n)) == Compare(v, List([Int(n)]))
  {
  }

  /**
   * After `i` pairs that all give no decision, the comparison is that of the
   * remaining suffixes: so the first deciding pair decides, the right list
   * running out first is `WrongOrder`, the left running out first is
   * `RightOrder`, and equal lengths without a decision give `NoDecision`.
   */
  lemma {:induction false} CompareListsSkipsUndecided(ls: seq<Value>, rs: seq<Value>, i: nat)
    requires i <= |ls| && i <= |rs|
    requires forall k :: 0 <= k < i ==> Compare(ls[k], rs[k]) == NoDecision
    ensures CompareLists(ls, rs) == CompareLists(ls[i..], rs[i..])
  {
    if i > 0 {
      assert Compare(ls[0], rs[0]) == NoDecision;
      CompareListsSkipsUndecided(ls[1..], rs[1..], i - 1);
      assert ls[1..][i - 1..] == ls[i..];
      assert rs[1..][i - 1..] == rs[i..];
    }
  }

  lemma FirstDecidingPairDecides(ls: seq<Value>, rs: seq<Value>, i: nat)
    requires i < |ls| && i < |rs|
    requires forall k :: 0 <= k < i ==> Compare(ls[k], rs[k]) == NoDecision
    requires Compare(ls[i], rs[i]) != NoDecision
    ensures CompareLists(ls, rs) == Compare(ls[i], rs[i])
  {
    CompareListsSkipsUndecided(ls, rs, i);
    assert ls[i..][0] == ls[i] && rs[i..][0] == rs[i];
  }

  lemma RunningOut(ls: seq<Value>, rs: seq<Value>)
    requires forall k :: 0 <= k < |ls| && k < |rs| ==> Compare(ls[k], rs[k]) == NoDecision
    ensures |ls| > |rs| ==> CompareLists(ls, rs) == WrongOrder
    ensures |ls| < |rs| ==> CompareLists(ls, rs) == RightOrder
    ensures |ls| == |rs| ==> CompareLists(ls, rs) == NoDecision
  {
    var m := if |ls| < |rs| then |ls| else |rs|;
    CompareListsSkipsUndecided(ls, rs, m);
  }

  /**
   * The index loop of `compare` on two lists, step by step: the right list
   * running out stops with `WrongOrder`, the first pair that decides stops
   * with its decision, and after the loop a shorter left list is `RightOrder`.
   */
  method CompareItems(ls: seq<Value>, rs: seq<Value>) returns (d: Decision)
    ensures d == CompareLists(ls, rs)
  {
    for i := 0 to |ls|
      invariant i <= |rs|
      invariant forall k :: 0 <= k < i ==> Compare(ls[k], rs[k]) == NoDecision
    {
      if i >= |rs| {
        RunningOut(ls, rs);
        return WrongOrder;
      }
      var cmp := Compare(ls[i], rs[i]);
      if cmp != NoDecision {
        FirstDecidingPairDecides(ls, rs, i);
        return cmp;
      }
    }
    RunningOut(ls, rs);
    if |ls| < |rs| {
      return RightOrder;
    }
    return NoDecision;
  }

  /** Every value compares equal to itself. */
  lemma {:induction false} CompareReflexive(v: Value)
    ensures Compare(v, v) == NoDecision
    decreases Size(v), 0
  {
    match v
    case Int(_) =>
    case List(items) => CompareListsReflexive(items);
  }

  lemma {:induction false} CompareListsReflexive(vs: seq<Value>)
    ensures CompareLists(vs, vs) == NoDecision
    decreases SizeSeq(vs), 1
  {
    if vs != [] {
      CompareReflexive(vs[0]);
      CompareListsReflexive(vs[1..]);
    }
  }

  function Flip(d: Decision): Decision {
    match d
    case RightOrder => WrongOrder
    case WrongOrder => RightOrder
    case NoDecision => NoDecision
  }

  /**
   * Swapping the operands swaps `RightOrder` and `WrongOrder`; in particular
   * `compare(a, b)` is `RightOrder` exactly when `compare(b, a)` is `WrongOrder`.
   */
  lemma {:induction false} CompareFlip(a: Value, b: Value)
    ensures Compare(b, a) == Flip(Compare(a, b))
    decreases Size(a) + Size(b), 0
  {
    match (a, b)
    case (Int(_), Int(_)) =>
    case (List(ls), List(rs)) => CompareListsFlip(ls, rs);
    case (Int(_), List(rs)) =>
      SizeSeqSingleton(a);
      CompareListsFlip([a], rs);
    case (List(ls), Int(_)) =>
      SizeSeqSingleton(b);
      CompareListsFlip(ls, [b]);
  }

  lemma {:induction false} CompareListsFlip(ls: seq<Value>, rs: seq<Value>)
    ensures CompareLists(rs, ls) == Flip(CompareLists(ls, rs))
    decreases SizeSeq(ls) + SizeSeq(rs), 1
  {
    if ls != [] && rs != [] {
      CompareFlip(ls[0], rs[0]);
      CompareListsFlip(ls[1..], rs[1..]);
    }
  }

  /** A value seen as a list: an integer is promoted to a one-element list. */
  function Items(v: Value): seq<Value> {
    match v
    case Int(_) => [v]
    case List(items) => items
  }

  /** Every comparison, including two integers, is the list comparison of the promoted operands. */
  lemma CompareViaItems(a: Value, b: Value)
    ensures Compare(a, b) == CompareLists(Items(a), Items(b))
  {
    if a.Int? && b.Int? {
      assert CompareLists([a], [b]) == (if Compare(a, b) == NoDecision then CompareLists([], []) else Compare(a, b));
    }
  }

  /** How two consecutive non-wrong decisions chain: the first decisive one wins. */
  function Chain(d1: Decision, d2: Decision): Decision {
    if d1 == NoDecision then d2 else d1
  }

  /**
   * Transitivity: if `a` does not come after `b` and `b` not after `c`, then
   * `a` does not come after `c`, strictly so if either step was strict.
   */
  lemma {:induction false} CompareTransitive(a: Value, b: Value, c: Value)
    requires Compare(a, b) != WrongOrder && Compare(b, c) != WrongOrder
    ensures Compare(a, c) == Chain(Compare(a, b), Compare(b, c))
    decreases Size(a) + Size(b) + Size(c), 0
  {
    if a.Int? && b.Int? && c.Int? {
    } else {
      CompareViaItems(a, b);
      CompareViaItems(b, c);
      CompareViaItems(a, c);
      assert SizeSeq(Items(a)) + SizeSeq(Items(b)) + SizeSeq(Items(c)) < Size(a) + Size(b) + Size(c) by {
        ItemsSize(a);
        ItemsSize(b);
        ItemsSize(c);
      }
      CompareListsTransitive(Items(a), Items(b), Items(c));
    }
  }

  lemma ItemsSize(v: Value)
    ensures SizeSeq(Items(v)) <= Size(v)
    ensures v.List? ==> SizeSeq(Items(v)) < Size(v)
  {
    if v.Int? {
      assert SizeSeq([v]) == Size(v) + SizeSeq([v][1..]);
    }
  }

  lemma {:induction false} CompareListsTransitive(xs: seq<Value>, ys: seq<Value>, zs: seq<Value>)
    requires CompareLists(xs, ys) != WrongOrder && CompareLists(ys, zs) != WrongOrder
    ensures CompareLists(xs, zs) == Chain(CompareLists(xs, ys), CompareLists(ys, zs))
    decreases SizeSeq(xs) + SizeSeq(ys) + SizeSeq(zs), 1
  {
    if xs != [] {
      assert ys != [] && zs != [];
      var c1, c2 := Compare(xs[0], ys[0]), Compare(ys[0], zs[0]);
      assert c1 != WrongOrder && c2 != WrongOrder;
      CompareTransitive(xs[0], ys[0], zs[0]);
      if c1 == NoDecision && c2 == NoDecision {
        CompareListsTransitive(xs[1..], ys[1..], zs[1..]);
      }
    }
  }

  // ---------------------------------------------------------------------
  // Part one.

  /** Consecutive packets form pairs; a trailing unpaired packet is dropped. */
  function Pairs(packets: seq<Value>): (ps: seq<(Value, Value)>)
    ensures |ps| == |packets| / 2
    ensures forall i :: 0 <= i < |ps| ==> ps[i] == (packets[2 * i], packets[2 * i + 1])
  {
    if |packets| < 2 then [] else [(packets[0], packets[1])] + Pairs(packets[2..])
  }

  /** The sum of the 1-based indices `i` of the pairs in right order, for pairs `from..|ps|`. */
  function RightOrderIndexSum(ps: seq<(Value, Value)>, from: nat): nat
    requires from <= |ps|
    decreases |ps| - from
  {
    if from == |ps| then 0
    else (if Compare(ps[from].0, ps[from].1) == RightOrder then from + 1 else 0) + RightOrderIndexSum(ps, from + 1)
  }

  /**
   * Part one: the packets are paired as they come (`prevPacket`), then the
   * 1-based indices of the pairs in the right order are summed.
   */
  method PartOne(packets: seq<Value>) returns (sum: nat)
    ensures sum == RightOrderIndexSum(Pairs(packets), 0)
  {
    var packetPairs := PairUp(packets);
    sum := SumRightOrder(packetPairs);
  }

  /** The reading loop of part one: a packet waits in `prev` until the next one completes its pair. */
  method PairUp(packets: seq<Value>) returns (packetPairs: seq<(Value, Value)>)
    ensures packetPairs == Pairs(packets)
  {
    packetPairs := [];
    var prev: Option<Value> := None;
    for k := 0 to |packets|
      invariant packetPairs == Pairs(packets[..k - k % 2])
      invariant prev == (if k % 2 == 1 then Some(packets[k - 1]) else None)
    {
      if prev.Some? {
        PairsStep(packets, k);
        packetPairs := packetPairs + [(prev.value, packets[k])];
        prev := None;
      } else {
        prev := Some(packets[k]);
      }
    }
    assert packets[..|packets|] == packets;
    if |packets| % 2 == 1 {
      PairsDropsLast(packets);
    }
  }

  /** The summing loop of part one, over the pairs from the last to the first. */
  method SumRightOrder(packetPairs: seq<(Value, Value)>) returns (sum: nat)
    ensures sum == RightOrderIndexSum(packetPairs, 0)
  {
    sum := 0;
    var i := |packetPairs|;
    while i > 0
      invariant 0 <= i <= |packetPairs|
      invariant sum == RightOrderIndexSum(packetPairs, i)
    {
      i := i - 1;
      if Compare(packetPairs[i].0, packetPairs[i].1) == RightOrder {
        sum := sum + (i + 1);
      }
    }
  }

  /** The packet at an odd position completes the pair begun by the one before it. */
  lemma PairsStep(packets: seq<Value>, k: nat)
    requires k < |packets| && k % 2 == 1
    ensures Pairs(packets[..k + 1]) == Pairs(packets[..k - 1]) + [(packets[k - 1], packets[k])]
  {
    PairsSnoc(packets[..k - 1], packets[k - 1], packets[k]);
    assert packets[..k + 1] == packets[..k - 1] + [packets[k - 1], packets[k]];
  }

  lemma PairsSnoc(packets: seq<Value>, a: Value, b: Value)
    requires |packets| % 2 == 0
    ensures Pairs(packets + [a, b]) == Pairs(packets) + [(a, b)]
  {
    var l, r := Pairs(packets + [a, b]), Pairs(packets) + [(a, b)];
    assert |l| == |r|;
    forall i | 0 <= i < |l| ensures l[i] == r[i] {
      if i < |packets| / 2 {
        assert (packets + [a, b])[2 * i] == packets[2 * i];
        assert (packets + [a, b])[2 * i + 1] == packets[2 * i + 1];
      }
    }
  }

  lemma PairsDropsLast(packets: seq<Value>)
    requires |packets| % 2 == 1
    ensures Pairs(packets) == Pairs(packets[..|packets| - 1])
  {
    var l, r := Pairs(packets), Pairs(packets[..|packets| - 1]);
    assert |l| == |r|;
    forall i | 0 <= i < |l| ensures l[i] == r[i] {
      assert packets[..|packets| - 1][2 * i] == packets[2 * i];
      assert packets[..|packets| - 1][2 * i + 1] == packets[2 * i + 1];
    }
  }

  /** The index sum is bounded by the sum of all indices, `n(n+1)/2`, which it reaches when every pair is in order. */
  lemma {:induction false} RightOrderIndexSumBound(ps: seq<(Value, Value)>, from: nat)
    requires from <= |ps|
    ensures 2 * RightOrderIndexSum(ps, from) <= |ps| * (|ps| + 1) - from * (from + 1)
    ensures (forall i :: from <= i < |ps| ==> Compare(ps[i].0, ps[i].1) == RightOrder)
            ==> 2 * RightOrderIndexSum(ps, from) == |ps| * (|ps| + 1) - from * (from + 1)
    decreases |ps| - from
  {
    if from < |ps| {
      RightOrderIndexSumBound(ps, from + 1);
      assert (from + 1) * (from + 2) == from * (from + 1) + 2 * (from + 1);
    }
  }

  // ---------------------------------------------------------------------
  // Part two.

  /**
   * A packet of part two. `divider` marks the two divider objects `[[2]]` and
   * `[[6]]` that are added to the input: the source finds them again by object
   * identity, so an input packet that merely equals a divider is not one.
   */
  datatype Packet = Packet(value: Value, divider: bool)

  function Divider(n: int): Packet {
    Packet(List([List([Int(n)])]), true)
  }

  /** Ordered by `compare`: no packet comes after a later one. */
  predicate SortedPackets(s: seq<Packet>) {
    forall i, j :: 0 <= i < j < |s| ==> Compare(s[i].value, s[j].value) != WrongOrder
  }

  /** The product of the 1-based positions `from + 1..` of the divider packets. */
  function DividerProduct(s: seq<Packet>, from: nat): int
    requires from <= |s|
    decreases |s| - from
  {
    if from == |s| then 1
    else (if s[from].divider then from + 1 else 1) * DividerProduct(s, from + 1)
  }

  /**
   * The packets of `s` that tie with `y` under `compare`, in order. A sort is
   * stable when it keeps every such sequence as it was.
   */
  function Ties(s: seq<Packet>, y: Value): (r: seq<Packet>)
    ensures |r| <= |s|
  {
    if s == [] then []
    else
      var last := s[|s| - 1];
      Ties(s[..|s| - 1], y) + (if Compare(last.value, y) == NoDecision then [last] else [])
  }

  /** Every packet of `Ties(s, y)` is a packet of `s` that ties with `y`. */
  lemma {:induction false} TiesMembers(s: seq<Packet>, y: Value, p: Packet)
    requires p in Ties(s, y)
    ensures p in s && Compare(p.value, y) == NoDecision
    decreases |s|
  {
    var init := s[..|s| - 1];
    assert s == init + [s[|s| - 1]];
    if p in Ties(init, y) {
      TiesMembers(init, y, p);
    }
  }

  lemma {:induction false} TiesAppend(s: seq<Packet>, t: seq<Packet>, y: Value)
    ensures Ties(s + t, y) == Ties(s, y) + Ties(t, y)
    decreases |t|
  {
    if t == [] {
      assert s + t == s;
    } else {
      TiesAppend(s, t[..|t| - 1], y);
      assert (s + t)[..|s + t| - 1] == s + t[..|t| - 1];
    }
  }

  /** No packet strictly after `e` ties with what `e` ties with. */
  lemma NoTiesAfter(e: Packet, r: seq<Packet>, y: Value)
    requires forall l :: 0 <= l < |r| ==> Compare(e.value, r[l].value) == RightOrder
    requires Compare(e.value, y) == NoDecision
    ensures Ties(r, y) == []
  {
    if Ties(r, y) != [] {
      var p := Ties(r, y)[0];
      TiesMembers(r, y, p);
      var l :| 0 <= l < |r| && r[l] == p;
      CompareFlip(p.value, y);
      CompareTransitive(e.value, y, p.value);
      assert false;
    }
  }

  /**
   * Inserting `e` into the sorted `p` after every packet not after it and
   * before every packet strictly after it keeps the packets sorted.
   */
  lemma InsertSorted(p: seq<Packet>, e: Packet, j: nat)
    requires SortedPackets(p) && j <= |p|
    requires forall l :: j <= l < |p| ==> Compare(e.value, p[l].value) == RightOrder
    requires j > 0 ==> Compare(p[j - 1].value, e.value) != WrongOrder
    ensures SortedPackets(p[..j] + [e] + p[j..])
  {
    var q := p[..j] + [e] + p[j..];
    forall k, l | 0 <= k < l < |q| ensures Compare(q[k].value, q[l].value) != WrongOrder {
      if l < j {
        assert q[k] == p[k] && q[l] == p[l];
      } else if k > j {
        assert q[k] == p[k - 1] && q[l] == p[l - 1];
      } else if l == j {
        assert q[k] == p[k] && q[l] == e;
        if k < j - 1 {
          CompareTransitive(p[k].value, p[j - 1].value, e.value);
        }
      } else if k == j {
        assert q[k] == e && q[l] == p[l - 1];
      } else {
        assert q[k] == p[k] && q[l] == p[l - 1];
      }
    }
  }

  /**
   * The same insertion keeps every run of tied packets in its order, `e`
   * coming last in its run.
   */
  lemma InsertStable(p: seq<Packet>, e: Packet, j: nat, y: Value)
    requires j <= |p|
    requires forall l :: j <= l < |p| ==> Compare(e.value, p[l].value) == RightOrder
    ensures Ties(p[..j] + [e] + p[j..], y) == Ties(p + [e], y)
  {
    assert p == p[..j] + p[j..];
    TiesAppend(p[..j] + [e], p[j..], y);
    TiesAppend(p[..j], [e], y);
    TiesAppend(p[..j], p[j..], y);
    TiesAppend(p, [e], y);
    assert [e][..0] == [];
    if Compare(e.value, y) == NoDecision {
      NoTiesAfter(e, p[j..], y);
    }
  }

  /** `p` is `o` sorted stably: ordered, the same packets, every run of ties in its order. */
  ghost predicate StablySorted(p: seq<Packet>, o: seq<Packet>) {
    SortedPackets(p) && multiset(p) == multiset(o) && forall y :: Ties(p, y) == Ties(o, y)
  }

  /** One insertion step keeps the sorted prefix sorted, its packets, and its runs of ties, with `e` added. */
  lemma InsertStep(p: seq<Packet>, e: Packet, j: nat, o: seq<Packet>)
    requires StablySorted(p, o) && j <= |p|
    requires forall l :: j <= l < |p| ==> Compare(e.value, p[l].value) == RightOrder
    requires j > 0 ==> Compare(p[j - 1].value, e.value) != WrongOrder
    ensures StablySorted(p[..j] + [e] + p[j..], o + [e])
  {
    var q := p[..j] + [e] + p[j..];
    InsertSorted(p, e, j);
    assert p == p[..j] + p[j..];
    assert multiset(q) == multiset(p) + multiset{e};
    InsertKeepsTies(p, e, j, o);
  }

  /** The insertion keeps the runs of ties of the packets read, with `e` added. */
  lemma InsertKeepsTies(p: seq<Packet>, e: Packet, j: nat, o: seq<Packet>)
    requires j <= |p| && forall y :: Ties(p, y) == Ties(o, y)
    requires forall l :: j <= l < |p| ==> Compare(e.value, p[l].value) == RightOrder
    ensures forall y :: Ties(p[..j] + [e] + p[j..], y) == Ties(o + [e], y)
  {
    forall y ensures Ties(p[..j] + [e] + p[j..], y) == Ties(o + [e], y) {
      InsertStable(p, e, j, y);
      TiesAppend(p, [e], y);
      TiesAppend(o, [e], y);
    }
  }

  /** `packets.sort(...)` with the comparator built from `compare`: a stable insertion sort. */
  method SortPackets(a: array<Packet>)
    modifies a
    ensures StablySorted(a[..], old(a[..]))
  {
    ghost var s := a[..];
    for i := 0 to a.Length
      invariant StablySorted(a[..i], s[..i])
      invariant a[i..] == s[i..]
    {
      assert s[..i + 1] == s[..i] + [a[i]];
      InsertPacket(a, i, s[..i]);
    }
    assert a[..a.Length] == a[..];
    assert s[..a.Length] == s;
  }

  /**
   * Moves `a[i]` left past every packet that belongs strictly after it, so
   * that it lands behind every packet not after it: the first `i + 1`
   * packets are then the `i` before, sorted stably, with `a[i]` added.
   */
  method InsertPacket(a: array<Packet>, i: nat, ghost o: seq<Packet>)
    requires i < a.Length && StablySorted(a[..i], o)
    modifies a
    ensures StablySorted(a[..i + 1], o + [old(a[i])])
    ensures a[i + 1..] == old(a[i + 1..])
  {
    ghost var s := a[..];
    var e := a[i];
    var k := i;
    while k > 0 && Compare(a[k - 1].value, e.value) == WrongOrder
      invariant 0 <= k <= i
      invariant forall m :: 0 <= m < k ==> a[m] == s[m]
      invariant a[k] == e
      invariant forall m :: k < m <= i ==> a[m] == s[m - 1]
      invariant forall m :: i < m < a.Length ==> a[m] == s[m]
      invariant forall l :: k <= l < i ==> Compare(e.value, s[l].value) == RightOrder
    {
      CompareFlip(a[k - 1].value, e.value);
      SwapWithPrevious(a, k);
      k := k - 1;
    }
    InsertStep(s[..i], e, k, o);
    assert a[..i + 1] == s[..i][..k] + [e] + s[..i][k..];
    assert a[i + 1..] == s[i + 1..];
  }

  method SwapWithPrevious(a: array<Packet>, j: int)
    requires 0 < j < a.Length
    modifies a
    ensures a[j - 1] == old(a[j]) && a[j] == old(a[j - 1])
    ensures forall m :: 0 <= m < a.Length && m != j - 1 && m != j ==> a[m] == old(a[m])
    ensures multiset(a[..]) == multiset(old(a[..]))
  {
    a[j - 1], a[j] := a[j], a[j - 1];
  }

  /** How many of the packets do not come after `y` under `compare`. */
  function NotAfter(packets: seq<Value>, y: Value): (n: nat)
    ensures n <= |packets|
  {
    if packets == [] then 0
    else
      NotAfter(packets[..|packets| - 1], y)
      + (if Compare(packets[|packets| - 1], y) != WrongOrder then 1 else 0)
  }

  /**
   * Part two: the dividers are appended to the packets, everything is sorted
   * stably with `compare`, and the 1-based positions of the two dividers are
   * multiplied. `[[2]]` lands after every packet not after it, `[[6]]` after
   * every packet not after it and `[[2]]`. The sorted order is returned with
   * the product.
   */
  method PartTwo(packets: seq<Value>) returns (sorted: seq<Packet>, product: int)
    ensures SortedPackets(sorted)
    ensures multiset(sorted) == multiset(Tagged(packets) + [Divider(2), Divider(6)])
    ensures forall y :: Ties(sorted, y) == Ties(Tagged(packets) + [Divider(2), Divider(6)], y)
    ensures product == DividerProduct(sorted, 0)
    ensures exists i, j :: 0 <= i < j < |sorted| && sorted[i] == Divider(2) && sorted[j] == Divider(6)
                           && product == (i + 1) * (j + 1)
    ensures product == (1 + NotAfter(packets, Divider(2).value)) * (2 + NotAfter(packets, Divider(6).value))
  {
    var all := Tagged(packets) + [Divider(2), Divider(6)];
    var a := new Packet[|all|](k requires 0 <= k < |all| => all[k]);
    assert a[..] == all;
    SortPackets(a);
    sorted := a[..];
    product := 1;
    var i := |sorted|;
    while i > 0
      invariant 0 <= i <= |sorted|
      invariant product == DividerProduct(sorted, i)
    {
      i := i - 1;
      if sorted[i].divider {
        product := (i + 1) * product;
      }
    }
    DividerPositions(packets, sorted);
    DividerProductClosedForm(packets, sorted);
  }

  /** A packet `Preceding` counts: an input packet that does not come after `y`. */
  predicate Counted(p: Packet, y: Value) {
    !p.divider && Compare(p.value, y) != WrongOrder
  }

  /** The number of input packets of `s` that do not come after `y`. */
  function Preceding(s: seq<Packet>, y: Value): nat {
    if s == [] then 0
    else Preceding(s[..|s| - 1], y) + (if Counted(s[|s| - 1], y) then 1 else 0)
  }

  lemma {:induction false} PrecedingAppend(s: seq<Packet>, t: seq<Packet>, y: Value)
    ensures Preceding(s + t, y) == Preceding(s, y) + Preceding(t, y)
    decreases |t|
  {
    if t == [] {
      assert s + t == s;
    } else {
      PrecedingAppend(s, t[..|t| - 1], y);
      assert (s + t)[..|s + t| - 1] == s + t[..|t| - 1];
    }
  }

  lemma {:induction false} PrecedingAll(s: seq<Packet>, y: Value)
    requires forall k :: 0 <= k < |s| ==> Counted(s[k], y)
    ensures Preceding(s, y) == |s|
    decreases |s|
  {
    if s != [] {
      PrecedingAll(s[..|s| - 1], y);
    }
  }

  lemma {:induction false} PrecedingNone(s: seq<Packet>, y: Value)
    requires forall k :: 0 <= k < |s| ==> !Counted(s[k], y)
    ensures Preceding(s, y) == 0
    decreases |s|
  {
    if s != [] {
      PrecedingNone(s[..|s| - 1], y);
    }
  }

  /** When exactly the first `c` packets are counted, the count is `c`. */
  lemma {:induction false} PrecedingBelow(s: seq<Packet>, y: Value, c: nat)
    requires c <= |s|
    requires forall k :: 0 <= k < |s| ==> (Counted(s[k], y) <==> k < c)
    ensures Preceding(s, y) == c
    decreases |s|
  {
    if |s| > c {
      PrecedingBelow(s[..|s| - 1], y, c);
    } else if s != [] {
      PrecedingBelow(s[..|s| - 1], y, c - 1);
    }
  }

  /** When exactly the first `c` packets but the one at `i` are counted, the count is `c - 1`. */
  lemma {:induction false} PrecedingBelowSkip(s: seq<Packet>, y: Value, c: nat, i: nat)
    requires i < c <= |s|
    requires forall k :: 0 <= k < |s| ==> (Counted(s[k], y) <==> k < c && k != i)
    ensures Preceding(s, y) == c - 1
    decreases |s|
  {
    if |s| > c {
      PrecedingBelowSkip(s[..|s| - 1], y, c, i);
    } else if |s| - 1 == i {
      PrecedingBelow(s[..|s| - 1], y, c - 1);
    } else {
      PrecedingBelowSkip(s[..|s| - 1], y, c - 1, i);
    }
  }

  /** Taking the packet at `m` out of `t` takes it out of its multiset. */
  lemma MultisetRemove(t: seq<Packet>, m: nat)
    requires m < |t|
    ensures multiset(t[..m] + t[m + 1..]) == multiset(t) - multiset{t[m]}
  {
    assert t == t[..m] + [t[m]] + t[m + 1..];
  }

  /** Taking the packet at `m` out of `t` takes its share out of the count. */
  lemma PrecedingRemove(t: seq<Packet>, m: nat, y: Value)
    requires m < |t|
    ensures Preceding(t, y) == Preceding(t[..m] + t[m + 1..], y) + (if Counted(t[m], y) then 1 else 0)
  {
    assert t == t[..m] + [t[m]] + t[m + 1..];
    PrecedingAppend(t[..m] + [t[m]], t[m + 1..], y);
    PrecedingAppend(t[..m], [t[m]], y);
    PrecedingAppend(t[..m], t[m + 1..], y);
    assert [t[m]][..0] == [];
  }

  /** The count does not depend on the order of the packets. */
  lemma {:induction false} PrecedingPermutation(s: seq<Packet>, t: seq<Packet>, y: Value)
    requires multiset(s) == multiset(t)
    ensures Preceding(s, y) == Preceding(t, y)
    decreases |s|
  {
    if s == [] {
      assert |t| == |multiset(t)| == 0;
    } else {
      var x, init := s[|s| - 1], s[..|s| - 1];
      assert s == init + [x];
      assert multiset(init) == multiset(s) - multiset{x};
      assert x in multiset(t);
      var m :| 0 <= m < |t| && t[m] == x;
      MultisetRemove(t, m);
      PrecedingPermutation(init, t[..m] + t[m + 1..], y);
      PrecedingRemove(t, m, y);
    }
  }

  /** Counting the tagged input packets counts the packets themselves. */
  lemma {:induction false} PrecedingTagged(packets: seq<Value>, y: Value)
    ensures Preceding(Tagged(packets), y) == NotAfter(packets, y)
    decreases |packets|
  {
    if packets != [] {
      var init := packets[..|packets| - 1];
      PrecedingTagged(init, y);
      assert Tagged(packets)[..|packets| - 1] == Tagged(init);
    }
  }

  /**
   * A packet at `k` that ties with `d.value`, when `d` is the last packet
   * tying with it and also sits at `i` before `k`, makes `d` occur twice.
   */
  lemma SecondOccurrence(s: seq<Packet>, d: Packet, i: nat, k: nat)
    requires i < k < |s| && s[i] == d && Compare(s[k].value, d.value) == NoDecision
    requires Ties(s, d.value) != [] && Ties(s, d.value)[|Ties(s, d.value)| - 1] == d
    ensures multiset(s)[d] >= 2
  {
    var y := d.value;
    assert s == s[..k] + [s[k]] + s[k + 1..];
    TiesAppend(s[..k] + [s[k]], s[k + 1..], y);
    TiesAppend(s[..k], [s[k]], y);
    assert [s[k]][..0] == [];
    var after := Ties(s[k + 1..], y);
    if after == [] {
      TwoOccurrences(s, i, k);
    } else {
      TiesMembers(s[k + 1..], y, d);
      var m :| 0 <= m < |s[k + 1..]| && s[k + 1..][m] == d;
      TwoOccurrences(s, i, k + 1 + m);
    }
  }

  /**
   * In a sequence where `d` occurs once, at `i`, and is the last packet
   * tying with `d`, no packet after `i` ties with `d`.
   */
  lemma NoTieAfterLast(s: seq<Packet>, d: Packet, i: nat)
    requires i < |s| && s[i] == d && multiset(s)[d] == 1
    requires Ties(s, d.value) != [] && Ties(s, d.value)[|Ties(s, d.value)| - 1] == d
    ensures forall k :: i < k < |s| ==> Compare(s[k].value, d.value) != NoDecision
  {
    forall k | i < k < |s| ensures Compare(s[k].value, d.value) != NoDecision {
      if Compare(s[k].value, d.value) == NoDecision {
        SecondOccurrence(s, d, i, k);
      }
    }
  }

  /** The packets tying with a divider, the dividers among them. */
  lemma DividerTies(packets: seq<Value>)
    ensures Ties(Tagged(packets) + [Divider(2), Divider(6)], Divider(2).value)
            == Ties(Tagged(packets), Divider(2).value) + [Divider(2)]
    ensures Ties(Tagged(packets) + [Divider(2), Divider(6)], Divider(6).value)
            == Ties(Tagged(packets), Divider(6).value) + [Divider(6)]
  {
    var d2, d6 := Divider(2), Divider(6);
    CompareReflexive(d2.value);
    CompareReflexive(d6.value);
    assert [d2, d6][..1] == [d2] && [d2][..0] == [];
    TiesAppend(Tagged(packets), [d2, d6], d2.value);
    TiesAppend(Tagged(packets), [d2, d6], d6.value);
  }

  /** Before `[[2]]` at `i` come exactly the input packets not after it. */
  lemma CountedBeforeTwo(packets: seq<Value>, sorted: seq<Packet>, i: nat, j: nat)
    requires SortedPackets(sorted)
    requires multiset(sorted) == multiset(Tagged(packets) + [Divider(2), Divider(6)])
    requires Ties(sorted, Divider(2).value) == Ties(Tagged(packets) + [Divider(2), Divider(6)], Divider(2).value)
    requires i < j < |sorted| && sorted[i] == Divider(2) && sorted[j] == Divider(6)
    ensures forall k :: 0 <= k < |sorted| ==> (Counted(sorted[k], Divider(2).value) <==> k < i)
  {
    var d2, y := Divider(2), Divider(2).value;
    OnlyTwoDividers(packets, sorted, i, j);
    DividerCounts(packets);
    DividerTies(packets);
    NoTieAfterLast(sorted, d2, i);
    forall k | 0 <= k < |sorted| ensures Counted(sorted[k], y) <==> k < i {
      CompareFlip(sorted[k].value, y);
    }
  }

  /** `[[2]]` at `i` is preceded by exactly the packets not after it. */
  lemma DividerTwoPosition(packets: seq<Value>, sorted: seq<Packet>, i: nat, j: nat)
    requires SortedPackets(sorted)
    requires multiset(sorted) == multiset(Tagged(packets) + [Divider(2), Divider(6)])
    requires Ties(sorted, Divider(2).value) == Ties(Tagged(packets) + [Divider(2), Divider(6)], Divider(2).value)
    requires i < j < |sorted| && sorted[i] == Divider(2) && sorted[j] == Divider(6)
    ensures i == NotAfter(packets, Divider(2).value)
  {
    var y := Divider(2).value;
    CountedBeforeTwo(packets, sorted, i, j);
    PrecedingBelow(sorted, y, i);
    DividersAreNotCounted(packets, y);
    PrecedingPermutation(sorted, Tagged(packets) + [Divider(2), Divider(6)], y);
  }

  /** Before `[[6]]` at `j` come `[[2]]` and exactly the input packets not after it. */
  lemma CountedBeforeSix(packets: seq<Value>, sorted: seq<Packet>, i: nat, j: nat)
    requires SortedPackets(sorted)
    requires multiset(sorted) == multiset(Tagged(packets) + [Divider(2), Divider(6)])
    requires Ties(sorted, Divider(6).value) == Ties(Tagged(packets) + [Divider(2), Divider(6)], Divider(6).value)
    requires i < j < |sorted| && sorted[i] == Divider(2) && sorted[j] == Divider(6)
    ensures forall k :: 0 <= k < |sorted| ==> (Counted(sorted[k], Divider(6).value) <==> k < j && k != i)
  {
    var d6, y := Divider(6), Divider(6).value;
    OnlyTwoDividers(packets, sorted, i, j);
    DividerCounts(packets);
    DividerTies(packets);
    NoTieAfterLast(sorted, d6, j);
    forall k | 0 <= k < |sorted| ensures Counted(sorted[k], y) <==> k < j && k != i {
      CompareFlip(sorted[k].value, y);
    }
  }

  /** `[[6]]` at `j` is preceded by `[[2]]` and exactly the packets not after it. */
  lemma DividerSixPosition(packets: seq<Value>, sorted: seq<Packet>, i: nat, j: nat)
    requires SortedPackets(sorted)
    requires multiset(sorted) == multiset(Tagged(packets) + [Divider(2), Divider(6)])
    requires Ties(sorted, Divider(6).value) == Ties(Tagged(packets) + [Divider(2), Divider(6)], Divider(6).value)
    requires i < j < |sorted| && sorted[i] == Divider(2) && sorted[j] == Divider(6)
    ensures j == 1 + NotAfter(packets, Divider(6).value)
  {
    var y := Divider(6).value;
    CountedBeforeSix(packets, sorted, i, j);
    PrecedingBelowSkip(sorted, y, j, i);
    DividersAreNotCounted(packets, y);
    PrecedingPermutation(sorted, Tagged(packets) + [Divider(2), Divider(6)], y);
  }

  /** The dividers appended to the packets add nothing to the count. */
  lemma DividersAreNotCounted(packets: seq<Value>, y: Value)
    ensures Preceding(Tagged(packets) + [Divider(2), Divider(6)], y) == NotAfter(packets, y)
  {
    PrecedingAppend(Tagged(packets), [Divider(2), Divider(6)], y);
    PrecedingNone([Divider(2), Divider(6)], y);
    PrecedingTagged(packets, y);
  }

  /**
   * Whatever sorted, stable permutation of the packets and dividers the sort
   * yields, the product is fixed: `[[2]]` sits at 1 + the number of packets
   * not after it, `[[6]]` one further than the packets not after it.
   */
  lemma DividerProductClosedForm(packets: seq<Value>, sorted: seq<Packet>)
    requires SortedPackets(sorted)
    requires multiset(sorted) == multiset(Tagged(packets) + [Divider(2), Divider(6)])
    requires forall y :: Ties(sorted, y) == Ties(Tagged(packets) + [Divider(2), Divider(6)], y)
    ensures DividerProduct(sorted, 0) == (1 + NotAfter(packets, Divider(2).value)) * (2 + NotAfter(packets, Divider(6).value))
  {
    var i, j := FindDividers(packets, sorted);
    var y2, y6 := Divider(2).value, Divider(6).value;
    assert Ties(sorted, y2) == Ties(Tagged(packets) + [Divider(2), Divider(6)], y2);
    assert Ties(sorted, y6) == Ties(Tagged(packets) + [Divider(2), Divider(6)], y6);
    DividerTwoPosition(packets, sorted, i, j);
    DividerSixPosition(packets, sorted, i, j);
  }

  /** The positions of `[[2]]` and `[[6]]` in a sorted permutation, whose product `two` returns. */
  lemma FindDividers(packets: seq<Value>, sorted: seq<Packet>) returns (i: nat, j: nat)
    requires SortedPackets(sorted)
    requires multiset(sorted) == multiset(Tagged(packets) + [Divider(2), Divider(6)])
    ensures i < j < |sorted| && sorted[i] == Divider(2) && sorted[j] == Divider(6)
    ensures DividerProduct(sorted, 0) == (i + 1) * (j + 1)
  {
    DividerPositions(packets, sorted);
    i, j :| 0 <= i < j < |sorted| && sorted[i] == Divider(2) && sorted[j] == Divider(6)
            && DividerProduct(sorted, 0) == (i + 1) * (j + 1);
  }

  /** In a sorted permutation of the tagged packets, `[[2]]` and `[[6]]` are the only dividers, in that order. */
  lemma DividerPositions(packets: seq<Value>, sorted: seq<Packet>)
    requires SortedPackets(sorted)
    requires multiset(sorted) == multiset(Tagged(packets) + [Divider(2), Divider(6)])
    ensures exists i, j :: 0 <= i < j < |sorted| && sorted[i] == Divider(2) && sorted[j] == Divider(6)
                           && DividerProduct(sorted, 0) == (i + 1) * (j + 1)
  {
    DividerCounts(packets);
    var i :| 0 <= i < |sorted| && sorted[i] == Divider(2);
    var j :| 0 <= j < |sorted| && sorted[j] == Divider(6);
    DividersOrdered();
    assert i < j;
    OnlyTwoDividers(packets, sorted, i, j);
    DividerProductOfTwo(sorted, 0, i, j);
  }

  /** `[[2]]` comes before `[[6]]`. */
  lemma DividersOrdered()
    ensures Compare(Divider(6).value, Divider(2).value) == WrongOrder
  {
  }

  /** The tagged packets with the dividers hold each divider once and no other divider object. */
  lemma DividerCounts(packets: seq<Value>)
    ensures var all := Tagged(packets) + [Divider(2), Divider(6)];
      multiset(all)[Divider(2)] == 1 && multiset(all)[Divider(6)] == 1 &&
      forall p: Packet :: p in multiset(all) && p.divider ==> p == Divider(2) || p == Divider(6)
  {
    var all := Tagged(packets) + [Divider(2), Divider(6)];
    assert multiset(Tagged(packets))[Divider(2)] == 0 && multiset(Tagged(packets))[Divider(6)] == 0;
    forall p: Packet | p in multiset(all) && p.divider ensures p == Divider(2) || p == Divider(6) {
      var m :| 0 <= m < |all| && all[m] == p;
    }
  }

  /** A divider at `i` and one at `j`: no other position of the sorted packets holds a divider. */
  lemma OnlyTwoDividers(packets: seq<Value>, sorted: seq<Packet>, i: nat, j: nat)
    requires multiset(sorted) == multiset(Tagged(packets) + [Divider(2), Divider(6)])
    requires i < |sorted| && j < |sorted| && sorted[i] == Divider(2) && sorted[j] == Divider(6)
    ensures forall k :: 0 <= k < |sorted| && k != i && k != j ==> !sorted[k].divider
  {
    DividerCounts(packets);
    forall k | 0 <= k < |sorted| && k != i && k != j ensures !sorted[k].divider {
      if sorted[k].divider {
        assert sorted[k] in multiset(sorted);
        if sorted[k] == Divider(2) {
          TwoOccurrences(sorted, i, k);
        } else {
          TwoOccurrences(sorted, j, k);
        }
      }
    }
  }

  lemma TwoOccurrences<T>(s: seq<T>, i: nat, k: nat)
    requires i < |s| && k < |s| && i != k && s[i] == s[k]
    ensures multiset(s)[s[i]] >= 2
  {
    var lo, hi := if i < k then i else k, if i < k then k else i;
    assert s == s[..lo] + [s[lo]] + s[lo + 1..hi] + [s[hi]] + s[hi + 1..];
  }

  /** The input packets, none of them a divider object. */
  function Tagged(packets: seq<Value>): (ps: seq<Packet>)
    ensures |ps| == |packets|
    ensures forall i :: 0 <= i < |ps| ==> ps[i] == Packet(packets[i], false)
  {
    if packets == [] then [] else [Packet(packets[0], false)] + Tagged(packets[1..])
  }

  /** With exactly the two dividers tagged, the product is the product of their two positions. */
  lemma {:induction false} DividerProductOfTwo(s: seq<Packet>, from: nat, i: nat, j: nat)
    requires from <= i < j < |s| && s[i].divider && s[j].divider
    requires forall k :: from <= k < |s| && k != i && k != j ==> !s[k].divider
    ensures DividerProduct(s, from) == (i + 1) * (j + 1)
    decreases |s| - from
  {
    if from < i {
      DividerProductOfTwo(s, from + 1, i, j);
    } else {
      assert from == i;
      DividerProductOfOne(s, from + 1, j);
    }
  }

  lemma {:induction false} DividerProductOfOne(s: seq<Packet>, from: nat, j: nat)
    requires from <= j < |s| && s[j].divider
    requires forall k :: from <= k < |s| && k != j ==> !s[k].divider
    ensures DividerProduct(s, from) == j + 1
    decreases |s| - from
  {
    if from < j {
      DividerProductOfOne(s, from + 1, j);
    } else {
      DividerProductOfNone(s, from + 1);
    }
  }

  lemma {:induction false} DividerProductOfNone(s: seq<Packet>, from: nat)
    requires from <= |s|
    requires forall k :: from <= k < |s| ==> !s[k].divider
    ensures DividerProduct(s, from) == 1
    decreases |s| - from
  {
    if from < |s| {
      DividerProductOfNone(s, from + 1);
    }
  }
}
