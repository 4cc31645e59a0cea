/** Deduplicating a filter and dropping the excludes it does not need. */
module Filters {
  import opened Cidr
  import opened Slices
  import opened Endpoints

  datatype Filter = Filter(included: seq<NetWithPortRange>, excluded: seq<NetWithPortRange>)

  /** Applying an attack, or reverting it. */
  datatype Mode = ModeAdd | ModeDelete

  /** The meaning of a filter at one endpoint. */
  ghost predicate Selected(f: Filter, e: Endpoint) {
    Matched(f.included, e) && !Matched(f.excluded, e)
  }

  /** An entry no other entry of the list includes. */
  ghost predicate Maximal(n: NetWithPortRange, s: seq<NetWithPortRange>) {
    n in s && forall m :: m in s && Includes(m, n) ==> m == n
  }

  /** No entry takes in a maximal entry of a shorter mask. `Contains` compares the base address
      only, so this can happen, for two nets with one base address. */
  ghost predicate NoShadow(s: seq<NetWithPortRange>) {
    forall a, b :: a in s && Maximal(b, s) && a.Contains(b) ==> a.net.ones <= b.net.ones
  }

  ghost predicate StrictlySorted(s: seq<NetWithPortRange>) {
    forall i, j :: 0 <= i < j < |s| ==> s[i].Compare(s[j]) < 0
  }

  /** What deduplication promises: the maximal entries, once each, in order. */
  ghost predicate ExactlyMaximal(out: seq<NetWithPortRange>, s: seq<NetWithPortRange>) {
    StrictlySorted(out) && forall n :: n in out <==> Maximal(n, s)
  }

  // Deduplication

  /** The first kept entry that contains the new one or is contained in it. */
  function FirstRelated(kept: seq<NetWithPortRange>, n: NetWithPortRange, i: nat := 0): (r: nat)
    requires i <= |kept|
    ensures i <= r <= |kept|
    ensures forall j :: i <= j < r ==> !kept[j].Contains(n) && !n.Contains(kept[j])
    ensures r < |kept| ==> kept[r].Contains(n) || n.Contains(kept[r])
    decreases |kept| - i
  {
    if i == |kept| || kept[i].Contains(n) || n.Contains(kept[i]) then i else FirstRelated(kept, n, i + 1)
  }

  function Fold(kept: seq<NetWithPortRange>, n: NetWithPortRange): seq<NetWithPortRange> {
    var i := FirstRelated(kept, n);
    if i == |kept| then kept + [n]
    else if kept[i].Contains(n) then kept
    else kept[i := n]
  }

  /** The scan of the whole list. */
  function FoldAll(s: seq<NetWithPortRange>): seq<NetWithPortRange> {
    if s == [] then [] else Fold(FoldAll(s[..|s|-1]), s[|s|-1])
  }

  /** What deduplication returns: the scan of the list as some sort leaves it. */
  ghost predicate Deduplicated(out: seq<NetWithPortRange>, s: seq<NetWithPortRange>) {
    exists t :: IsSortOf(t, s) && out == FoldAll(t)
  }

  ghost predicate IsSortOf(t: seq<NetWithPortRange>, s: seq<NetWithPortRange>) {
    Sorted(t, CompareNets) && multiset(t) == multiset(s)
  }

  ghost predicate Absorbed(kept: seq<NetWithPortRange>, e: NetWithPortRange) {
    exists i :: 0 <= i < |kept| && kept[i].Contains(e)
  }

  ghost predicate Antichain(kept: seq<NetWithPortRange>) {
    forall i, j :: 0 <= i < |kept| && 0 <= j < |kept| && i != j ==> !kept[i].Contains(kept[j])
  }

  /** The state of the scan: entries seen, in order, none containing another, that together
      contain every entry seen. */
  ghost predicate KeepsMaximal(kept: seq<NetWithPortRange>, seen: seq<NetWithPortRange>) {
    && (forall d :: d in kept ==> d in seen)
    && (forall e :: e in seen ==> Absorbed(kept, e))
    && Antichain(kept) && StrictlySorted(kept)
  }

  lemma IncludesAntisymmetric(a: NetWithPortRange, b: NetWithPortRange)
    requires Valid(a) && Valid(b) && Includes(a, b) && Includes(b, a)
    ensures a == b
  {
    InclusionIsContainmentOfWiderNet(a, b);
    InclusionIsContainmentOfWiderNet(b, a);
    SubnetAntisymmetric(a.net, b.net);
  }

  /** A later entry that contains an earlier one shares its base address and first port. */
  lemma LateContainerSharesStart(o: NetWithPortRange, x: NetWithPortRange)
    requires Valid(o) && Valid(x) && o.Compare(x) <= 0 && x.Contains(o)
    ensures o.net.ip == x.net.ip && o.ports.from == x.ports.from
  {
    BaseIsLeast(x.net.ip, o.net.ip, x.net.ones);
    CompareBitsOrder(x.net.ip, o.net.ip);
  }

  /** Only the last kept entry can be inside the next one, which is why replacing one
      entry and stopping is enough. */
  lemma OnlyLastIsReplaced(kept: seq<NetWithPortRange>, seen: seq<NetWithPortRange>, x: NetWithPortRange, i: nat)
    requires AllValid(seen + [x]) && KeepsMaximal(kept, seen)
    requires forall e :: e in seen ==> e.Compare(x) <= 0
    requires i < |kept| && x.Contains(kept[i])
    ensures i == |kept| - 1
  {
    var o := kept[i];
    assert o in seen + [x] && x in seen + [x];
    LateContainerSharesStart(o, x);
    if i + 1 < |kept| {
      var p := kept[i + 1];
      assert p in seen + [x];
      CompareTransitive(o, p, x);
      CompareBitsOrder(o.net.ip, p.net.ip);
      CompareBitsOrder(p.net.ip, x.net.ip);
    }
  }

  /** What the replaced entry contained, the replacing one contains too: both, and everything
      sorted between them, have one base address. */
  lemma ReplacementAbsorbs(o: NetWithPortRange, x: NetWithPortRange, e: NetWithPortRange)
    requires Valid(o) && Valid(x) && o.Compare(x) <= 0 && x.Contains(o)
    requires Valid(e) && e.Compare(x) <= 0 && o.Contains(e)
    ensures x.Contains(e)
  {
    LateContainerSharesStart(o, x);
    BaseIsLeast(o.net.ip, e.net.ip, o.net.ones);
    CompareBitsOrder(o.net.ip, e.net.ip);
  }

  lemma ReplacingKeepsMaximal(kept: seq<NetWithPortRange>, seen: seq<NetWithPortRange>, x: NetWithPortRange)
    requires AllValid(seen + [x]) && KeepsMaximal(kept, seen)
    requires forall e :: e in seen ==> e.Compare(x) <= 0
    requires FirstRelated(kept, x) < |kept| && !kept[FirstRelated(kept, x)].Contains(x)
    ensures KeepsMaximal(Fold(kept, x), seen + [x])
  {
    var s, i, r := seen + [x], FirstRelated(kept, x), Fold(kept, x);
    OnlyLastIsReplaced(kept, seen, x, i);
    var o := kept[i];
    assert x in s && o in s && r[i] == x && x.Contains(x);
    forall e | e in s
      ensures Absorbed(r, e)
    {
      if e in seen {
        assert Absorbed(kept, e);
        var j :| 0 <= j < |kept| && kept[j].Contains(e);
        if j == i {
          ReplacementAbsorbs(o, x, e);
        } else {
          assert r[j] == kept[j];
        }
      } else {
        assert r[i].Contains(e);
      }
    }
    forall j | 0 <= j < i
      ensures r[j].Compare(x) < 0
    {
      assert kept[j] == r[j];
      CompareTransitive(kept[j], o, x);
    }
    forall d | d in r
      ensures d in s
    {
      var j :| 0 <= j < |r| && r[j] == d;
      if j != i { assert d in kept; }
    }
  }

  lemma AppendingKeepsMaximal(kept: seq<NetWithPortRange>, seen: seq<NetWithPortRange>, x: NetWithPortRange)
    requires AllValid(seen + [x]) && KeepsMaximal(kept, seen)
    requires forall e :: e in seen ==> e.Compare(x) <= 0
    requires FirstRelated(kept, x) == |kept|
    ensures KeepsMaximal(Fold(kept, x), seen + [x])
  {
    var s, r := seen + [x], kept + [x];
    assert x in s && r[|kept|] == x && x.Contains(x);
    forall e | e in s
      ensures Absorbed(r, e)
    {
      if e in seen {
        assert Absorbed(kept, e);
        var j :| 0 <= j < |kept| && kept[j].Contains(e);
        assert r[j] == kept[j];
      } else {
        assert r[|kept|].Contains(e);
      }
    }
    forall j | 0 <= j < |kept|
      ensures kept[j].Compare(x) < 0
    {
      CompareOrder(kept[j], x);
      assert kept[j] in s;
    }
  }

  lemma FoldKeepsMaximal(kept: seq<NetWithPortRange>, seen: seq<NetWithPortRange>, x: NetWithPortRange)
    requires AllValid(seen + [x]) && KeepsMaximal(kept, seen)
    requires forall e :: e in seen ==> e.Compare(x) <= 0
    ensures KeepsMaximal(Fold(kept, x), seen + [x])
  {
    var i := FirstRelated(kept, x);
    if i == |kept| {
      AppendingKeepsMaximal(kept, seen, x);
    } else if !kept[i].Contains(x) {
      ReplacingKeepsMaximal(kept, seen, x);
    } else {
      assert Absorbed(kept, x);
    }
  }

  /** Without a shadowed entry, the kept entries are exactly the maximal ones. */
  lemma KeptIsExactlyMaximal(kept: seq<NetWithPortRange>, s: seq<NetWithPortRange>)
    requires AllValid(s) && NoShadow(s) && KeepsMaximal(kept, s)
    ensures ExactlyMaximal(kept, s)
  {
    forall n | Maximal(n, s)
      ensures n in kept
    {
      assert Absorbed(kept, n);
      var i :| 0 <= i < |kept| && kept[i].Contains(n);
      InclusionIsContainmentOfWiderNet(kept[i], n);
    }
    forall n | n in kept
      ensures Maximal(n, s)
    {
      var m := WidestAround(s, n);
      InclusionIsContainmentOfWiderNet(m, n);
      var i :| 0 <= i < |kept| && kept[i] == m;
      var j :| 0 <= j < |kept| && kept[j] == n;
      assert i == j;
    }
  }

  /** The scan of one entry against those kept: at most one replacement. */
  method FoldIn(kept: seq<NetWithPortRange>, nwp: NetWithPortRange) returns (deduplicated: seq<NetWithPortRange>)
    ensures deduplicated == Fold(kept, nwp)
  {
    deduplicated := kept;
    for i := 0 to |kept|
      invariant deduplicated == kept && FirstRelated(kept, nwp) == FirstRelated(kept, nwp, i)
    {
      var o := deduplicated[i];
      if o.Contains(nwp) {
        return;
      } else if nwp.Contains(o) {
        deduplicated := deduplicated[i := nwp];
        return;
      }
    }
    deduplicated := deduplicated + [nwp];
  }

  lemma RearrangedList(a: seq<NetWithPortRange>, b: seq<NetWithPortRange>)
    requires multiset(a) == multiset(b)
    ensures forall n :: n in a <==> n in b
  {
    assert forall n :: n in a <==> n in multiset(a);
    assert forall n :: n in b <==> n in multiset(b);
  }

  /** Sorts the caller's list in place, then keeps the maximal entries. */
  method Deduplicate(nwps: array<NetWithPortRange>) returns (deduplicated: seq<NetWithPortRange>)
    modifies nwps
    ensures Sorted(nwps[..], CompareNets) && multiset(nwps[..]) == multiset(old(nwps[..]))
    ensures Deduplicated(deduplicated, old(nwps[..]))
    ensures AllValid(old(nwps[..])) ==> KeepsMaximal(deduplicated, old(nwps[..]))
    ensures AllValid(old(nwps[..])) && NoShadow(old(nwps[..])) ==> ExactlyMaximal(deduplicated, old(nwps[..]))
  {
    CompareIsTotalPreorder();
    SortInPlace(nwps, CompareNets);
    RearrangedList(nwps[..], old(nwps[..]));
    deduplicated := DeduplicateSorted(nwps[..]);
    assert IsSortOf(nwps[..], old(nwps[..]));
    if AllValid(old(nwps[..])) && NoShadow(old(nwps[..])) {
      KeptIsExactlyMaximal(deduplicated, old(nwps[..]));
    }
  }

  method DeduplicateSorted(nwps: seq<NetWithPortRange>) returns (deduplicated: seq<NetWithPortRange>)
    requires Sorted(nwps, CompareNets)
    ensures deduplicated == FoldAll(nwps)
    ensures AllValid(nwps) ==> KeepsMaximal(deduplicated, nwps)
  {
    deduplicated := [];
    for k := 0 to |nwps|
      invariant deduplicated == FoldAll(nwps[..k])
    {
      assert nwps[..k+1][..k] == nwps[..k];
      deduplicated := FoldIn(deduplicated, nwps[k]);
    }
    assert nwps[..|nwps|] == nwps;
    if AllValid(nwps) { FoldAllKeepsMaximal(nwps); }
  }

  lemma {:induction false} FoldAllKeepsMaximal(s: seq<NetWithPortRange>)
    requires AllValid(s) && Sorted(s, CompareNets)
    ensures KeepsMaximal(FoldAll(s), s)
  {
    if s != [] {
      var seen, x := s[..|s|-1], s[|s|-1];
      assert s == seen + [x];
      SortedPrefix(seen, x);
      FoldAllKeepsMaximal(seen);
      FoldKeepsMaximal(FoldAll(seen), seen, x);
    }
  }

  /** On any list the result holds entries of the list only. */
  lemma {:induction false} FoldAllSelects(s: seq<NetWithPortRange>)
    ensures |FoldAll(s)| <= |s| && forall n :: n in FoldAll(s) ==> n in s
  {
    if s != [] { FoldAllSelects(s[..|s|-1]); }
  }

  lemma DeduplicatedSelects(out: seq<NetWithPortRange>, s: seq<NetWithPortRange>)
    requires Deduplicated(out, s)
    ensures |out| <= |s| && forall n :: n in out ==> n in s
    ensures AllValid(s) ==> KeepsMaximal(out, s)
  {
    var t :| IsSortOf(t, s) && out == FoldAll(t);
    RearrangedList(t, s);
    FoldAllSelects(t);
    assert |t| == |multiset(t)| == |multiset(s)| == |s|;
    if AllValid(s) { FoldAllKeepsMaximal(t); }
  }

  // When deduplication is exact

  /** However the sort breaks ties, the result is exactly the maximal entries. */
  ghost predicate ExactHoweverSorted(s: seq<NetWithPortRange>) {
    forall out :: Deduplicated(out, s) ==> ExactlyMaximal(out, s)
  }

  /** The exact condition: no entry shadows a maximal one. */
  lemma NoShadowIsExactness(s: seq<NetWithPortRange>)
    requires AllValid(s)
    ensures NoShadow(s) <==> ExactHoweverSorted(s)
  {
    if NoShadow(s) {
      forall out | Deduplicated(out, s)
        ensures ExactlyMaximal(out, s)
      {
        DeduplicatedSelects(out, s);
        KeptIsExactlyMaximal(out, s);
      }
    } else {
      var a, b :| a in s && Maximal(b, s) && a.Contains(b) && b.net.ones < a.net.ones;
      var t := ShadowedIsLost(s, a, b);
      assert Deduplicated(FoldAll(t), s) && !ExactlyMaximal(FoldAll(t), s);
    }
  }

  /** Ties with `b` are decided against it. */
  function LastOfTies(b: NetWithPortRange): (NetWithPortRange, NetWithPortRange) -> int {
    (x: NetWithPortRange, y: NetWithPortRange) =>
      if x.Compare(y) != 0 then x.Compare(y) else if y == b && x != b then -1 else if x == b && y != b then 1 else 0
  }

  lemma LastOfTiesIsTotalPreorder(b: NetWithPortRange)
    ensures TotalPreorder(LastOfTies(b))
  {
    var cmp := LastOfTies(b);
    forall x, y
      ensures cmp(x, y) <= 0 || cmp(y, x) <= 0
      ensures cmp(x, y) < 0 <==> cmp(y, x) > 0
    {
      CompareOrder(x, y);
      CompareOrder(y, x);
    }
    forall x, y, z | cmp(x, y) <= 0 && cmp(y, z) <= 0
      ensures cmp(x, z) <= 0
    {
      CompareTransitive(x, y, z);
      CompareOrder(x, y);
      CompareOrder(y, z);
      CompareOrder(x, z);
    }
  }

  /** A shadowed entry is missing from the result of some sort. */
  lemma ShadowedIsLost(s: seq<NetWithPortRange>, a: NetWithPortRange, b: NetWithPortRange) returns (t: seq<NetWithPortRange>)
    requires AllValid(s) && a in s && b in s && a.Contains(b) && b.net.ones < a.net.ones
    ensures IsSortOf(t, s) && b !in FoldAll(t)
  {
    hide Valid, FoldAll, IsSortOf, LastOfTies, NetWithPortRange.Contains;
    SharedBase(a, b);
    if a.ports != b.ports {
      t := SortAgainst(s, b);
      SortHasSameEntries(t, s);
      FoldAllKeepsMaximal(t);
      ShadowedByWiderPorts(FoldAll(t), t, a, b);
    } else {
      t := TiedIsLost(s, a, b);
    }
  }

  /** Of two entries that tie in the sort, each is missing from the result of some sort. */
  lemma TiedIsLost(s: seq<NetWithPortRange>, a: NetWithPortRange, b: NetWithPortRange) returns (t: seq<NetWithPortRange>)
    requires AllValid(s) && a in s && a.net.ip == b.net.ip && a.ports == b.ports && a != b
    ensures IsSortOf(t, s) && b !in FoldAll(t)
  {
    hide Valid, FoldAll, IsSortOf, LastOfTies, NetWithPortRange.Contains;
    t := SortAgainst(s, b);
    SortHasSameEntries(t, s);
    var k :| 0 <= k < |t| && t[k] == a;
    forall i | 0 <= i < |t| && t[i] == b
      ensures k < i
    {
      if i < k { TieWithLast(t, i, k, b); }
    }
    TakenInIsNeverKept(t, k, b);
  }

  lemma SharedBase(a: NetWithPortRange, b: NetWithPortRange)
    requires Valid(a) && Valid(b) && a.Contains(b) && b.net.ones < a.net.ones
    ensures a.net.ip == b.net.ip
  {
    ContainsIsInclusionUnlessBaseShared(a, b);
    InclusionIsContainmentOfWiderNet(a, b);
  }

  lemma SortAgainst(s: seq<NetWithPortRange>, b: NetWithPortRange) returns (t: seq<NetWithPortRange>)
    ensures IsSortOf(t, s) && Sorted(t, LastOfTies(b))
  {
    LastOfTiesIsTotalPreorder(b);
    t := SortedExists(s, LastOfTies(b));
    forall i, j | 0 <= i < j < |t|
      ensures CompareNets(t[i], t[j]) <= 0
    {
      assert LastOfTies(b)(t[i], t[j]) <= 0;
    }
  }

  lemma SortHasSameEntries(t: seq<NetWithPortRange>, s: seq<NetWithPortRange>)
    requires IsSortOf(t, s)
    ensures Sorted(t, CompareNets) && forall n :: n in t <==> n in s
  {
    RearrangedList(t, s);
  }

  lemma TieWithLast(t: seq<NetWithPortRange>, i: nat, k: nat, b: NetWithPortRange)
    requires Sorted(t, LastOfTies(b)) && i < k < |t| && t[i] == b
    requires t[k].net.ip == b.net.ip && t[k].ports == b.ports
    ensures t[k] == b
  {
    CompareOrder(t[k], b);
    CompareOrder(b, t[k]);
    assert LastOfTies(b)(t[i], t[k]) <= 0;
  }

  lemma ShadowedByWiderPorts(kept: seq<NetWithPortRange>, seen: seq<NetWithPortRange>, a: NetWithPortRange, b: NetWithPortRange)
    requires KeepsMaximal(kept, seen) && a in seen
    requires a.net.ip == b.net.ip && a.Contains(b) && a.ports != b.ports
    ensures b !in kept
  {
    assert Absorbed(kept, a);
    var i :| 0 <= i < |kept| && kept[i].Contains(a);
    assert kept[i].Contains(b);
  }

  /** Once an entry of its base address and ports has been seen, `b` is not kept. */
  lemma TakenInIsNotAdded(seen: seq<NetWithPortRange>, a: NetWithPortRange, b: NetWithPortRange)
    requires AllValid(seen + [b]) && Sorted(seen + [b], CompareNets) && a in seen
    requires a.net.ip == b.net.ip && a.ports == b.ports
    ensures Fold(FoldAll(seen), b) == FoldAll(seen)
  {
    hide KeepsMaximal, FoldAll;
    var kept := FoldAll(seen);
    SortedPrefix(seen, b);
    FoldAllKeepsMaximal(seen);
    var j := AbsorberOf(kept, seen, a);
    assert kept[j].Contains(b);
    var i := FirstRelated(kept, b);
    if b.Contains(kept[i]) { OnlyLastIsReplaced(kept, seen, b, i); }
  }

  lemma AbsorberOf(kept: seq<NetWithPortRange>, seen: seq<NetWithPortRange>, e: NetWithPortRange) returns (j: nat)
    requires KeepsMaximal(kept, seen) && e in seen
    ensures j < |kept| && kept[j].Contains(e)
  {
    assert Absorbed(kept, e);
    j :| 0 <= j < |kept| && kept[j].Contains(e);
  }

  lemma SortedPrefix(seen: seq<NetWithPortRange>, x: NetWithPortRange)
    requires Sorted(seen + [x], CompareNets)
    ensures Sorted(seen, CompareNets) && forall e :: e in seen ==> e.Compare(x) <= 0
  {
    var s := seen + [x];
    forall e | e in seen
      ensures e.Compare(x) <= 0
    {
      var j :| 0 <= j < |seen| && seen[j] == e;
      assert CompareNets(s[j], s[|s|-1]) <= 0;
    }
    assert forall i :: 0 <= i < |seen| ==> seen[i] == s[i];
  }

  lemma FoldAddsOne(kept: seq<NetWithPortRange>, x: NetWithPortRange)
    ensures forall n :: n in Fold(kept, x) ==> n in kept || n == x
  {
  }

  /** An entry is never kept when another one of its base address and ports comes first. */
  lemma {:induction false} TakenInIsNeverKept(t: seq<NetWithPortRange>, k: nat, b: NetWithPortRange)
    requires AllValid(t) && Sorted(t, CompareNets) && k < |t|
    requires t[k].net.ip == b.net.ip && t[k].ports == b.ports && t[k] != b
    requires forall i :: 0 <= i < |t| && t[i] == b ==> k < i
    ensures b !in FoldAll(t)
    decreases |t|
  {
    hide Fold, Valid;
    var seen, x := t[..|t|-1], t[|t|-1];
    assert t == seen + [x];
    FoldAddsOne(FoldAll(seen), x);
    if k < |seen| {
      SortedPrefix(seen, x);
      TakenInIsNeverKept(seen, k, b);
      if x == b { TakenInIsNotAdded(seen, t[k], b); }
    } else {
      FoldAllSelects(seen);
    }
  }

  // When no endpoint is lost

  /** An entry that no other one of its base address takes in: none has wider ports, and among
      those that tie with it, it has the longest mask. */
  ghost predicate Safe(n: NetWithPortRange, s: seq<NetWithPortRange>) {
    n in s && forall m :: m in s && m.net.ip == n.net.ip && m.Contains(n) ==>
      m.ports == n.ports && m.net.ones <= n.net.ones
  }

  ghost predicate SafelyMatched(s: seq<NetWithPortRange>, e: Endpoint) {
    exists n :: Safe(n, s) && n.Matches(e)
  }

  /** Whatever the list matches, a safe entry matches too. */
  ghost predicate SafeCover(s: seq<NetWithPortRange>) {
    forall e :: Matched(s, e) ==> SafelyMatched(s, e)
  }

  /** However the sort breaks ties, the result matches what the list matches. */
  ghost predicate KeptHoweverSorted(s: seq<NetWithPortRange>) {
    forall out, e :: Deduplicated(out, s) ==> (Matched(out, e) <==> Matched(s, e))
  }

  /** What contains a safe entry and is kept holds all its endpoints. */
  lemma SafeIsHeld(out: seq<NetWithPortRange>, s: seq<NetWithPortRange>, n: NetWithPortRange, e: Endpoint)
    requires AllValid(s) && KeepsMaximal(out, s) && Safe(n, s) && n.Matches(e)
    ensures Matched(out, e)
  {
    var i := AbsorberOf(out, s, n);
    var d := out[i];
    if n.net.ones < d.net.ones { SharedBase(d, n); }
    InclusionIsContainmentOfWiderNet(d, n);
    assert d in out && d.Matches(e);
  }

  /** Ties go to the longest mask. */
  function NarrowestOfTies(x: NetWithPortRange, y: NetWithPortRange): int {
    if x.Compare(y) != 0 then x.Compare(y) else y.net.ones - x.net.ones
  }

  lemma NarrowestOfTiesIsTotalPreorder()
    ensures TotalPreorder(NarrowestOfTies)
  {
    forall x, y
      ensures NarrowestOfTies(x, y) <= 0 || NarrowestOfTies(y, x) <= 0
      ensures NarrowestOfTies(x, y) < 0 <==> NarrowestOfTies(y, x) > 0
    {
      CompareOrder(x, y);
      CompareOrder(y, x);
    }
    forall x, y, z | NarrowestOfTies(x, y) <= 0 && NarrowestOfTies(y, z) <= 0
      ensures NarrowestOfTies(x, z) <= 0
    {
      CompareTransitive(x, y, z);
      CompareOrder(x, y);
      CompareOrder(y, z);
      CompareOrder(x, z);
    }
  }

  lemma SortNarrowestFirst(s: seq<NetWithPortRange>) returns (t: seq<NetWithPortRange>)
    ensures IsSortOf(t, s) && Sorted(t, NarrowestOfTies)
  {
    NarrowestOfTiesIsTotalPreorder();
    t := SortedExists(s, NarrowestOfTies);
    forall i, j | 0 <= i < j < |t|
      ensures CompareNets(t[i], t[j]) <= 0
    {
      assert NarrowestOfTies(t[i], t[j]) <= 0;
    }
  }

  lemma NarrowerComesFirst(t: seq<NetWithPortRange>, i: nat, k: nat)
    requires Sorted(t, NarrowestOfTies) && i < |t| && k < |t|
    requires t[i].net.ip == t[k].net.ip && t[i].ports == t[k].ports && t[i].net.ones < t[k].net.ones
    ensures k < i
  {
    CompareOrder(t[i], t[k]);
    CompareOrder(t[k], t[i]);
  }

  /** The sort that puts the longest mask first leaves safe entries only. */
  lemma NarrowestFirstKeepsSafe(s: seq<NetWithPortRange>, t: seq<NetWithPortRange>, k: NetWithPortRange)
    requires AllValid(s) && IsSortOf(t, s) && Sorted(t, NarrowestOfTies) && k in FoldAll(t)
    ensures Safe(k, s)
  {
    hide Valid, FoldAll, IsSortOf, NarrowestOfTies, NetWithPortRange.Contains;
    SortHasSameEntries(t, s);
    FoldAllKeepsMaximal(t);
    FoldAllSelects(t);
    forall m | m in s && m.net.ip == k.net.ip && m.Contains(k)
      ensures m.ports == k.ports && m.net.ones <= k.net.ones
    {
      if m.ports != k.ports {
        ShadowedByWiderPorts(FoldAll(t), t, m, k);
      } else if k.net.ones < m.net.ones {
        NarrowerTakesIn(t, m, k);
      }
    }
  }

  lemma NarrowerTakesIn(t: seq<NetWithPortRange>, m: NetWithPortRange, k: NetWithPortRange)
    requires AllValid(t) && Sorted(t, CompareNets) && Sorted(t, NarrowestOfTies) && m in t
    requires m.net.ip == k.net.ip && m.ports == k.ports && k.net.ones < m.net.ones
    ensures k !in FoldAll(t)
  {
    hide FoldAll, NarrowestOfTies;
    var j :| 0 <= j < |t| && t[j] == m;
    forall i | 0 <= i < |t| && t[i] == k
      ensures j < i
    {
      NarrowerComesFirst(t, i, j);
    }
    TakenInIsNeverKept(t, j, k);
  }

  /** An endpoint stays matched, however the sort breaks ties, iff a safe entry matches it. */
  lemma SafelyMatchedIffAlwaysKept(s: seq<NetWithPortRange>, e: Endpoint)
    requires AllValid(s)
    ensures SafelyMatched(s, e) <==> forall out :: Deduplicated(out, s) ==> Matched(out, e)
  {
    hide Deduplicated, Safe, Matched;
    if SafelyMatched(s, e) {
      var n :| Safe(n, s) && n.Matches(e);
      forall out | Deduplicated(out, s)
        ensures Matched(out, e)
      {
        DeduplicatedSelects(out, s);
        SafeIsHeld(out, s, n, e);
      }
    } else {
      var out := SafeResult(s);
      UnsafelyMatched(s, out, e);
    }
  }

  lemma SafeResult(s: seq<NetWithPortRange>) returns (out: seq<NetWithPortRange>)
    requires AllValid(s)
    ensures Deduplicated(out, s) && forall k :: k in out ==> Safe(k, s)
  {
    hide Safe;
    var t := SortNarrowestFirst(s);
    out := FoldAll(t);
    forall k | k in out
      ensures Safe(k, s)
    {
      NarrowestFirstKeepsSafe(s, t, k);
    }
  }

  lemma UnsafelyMatched(s: seq<NetWithPortRange>, out: seq<NetWithPortRange>, e: Endpoint)
    requires (forall k :: k in out ==> Safe(k, s)) && !SafelyMatched(s, e)
    ensures !Matched(out, e)
  {
    hide Safe;
  }

  /** The exact condition for deduplication to keep the meaning of a list. */
  lemma SafeCoverIffKept(s: seq<NetWithPortRange>)
    requires AllValid(s)
    ensures SafeCover(s) <==> KeptHoweverSorted(s)
  {
    hide Deduplicated, SafelyMatched, Matched;
    forall out, e | Deduplicated(out, s) && Matched(out, e)
      ensures Matched(s, e)
    {
      DeduplicatedMatchesLess(out, s, e);
    }
    forall e
      ensures SafelyMatched(s, e) <==> forall out :: Deduplicated(out, s) ==> Matched(out, e)
    {
      SafelyMatchedIffAlwaysKept(s, e);
    }
  }

  lemma DeduplicatedMatchesLess(out: seq<NetWithPortRange>, s: seq<NetWithPortRange>, e: Endpoint)
    requires Deduplicated(out, s) && Matched(out, e)
    ensures Matched(s, e)
  {
    hide Deduplicated, KeepsMaximal;
    DeduplicatedSelects(out, s);
  }

  /** Maximal entries that nothing shadows are safe, and they cover the list. */
  lemma NoShadowIsSafeCover(s: seq<NetWithPortRange>)
    requires AllValid(s) && NoShadow(s)
    ensures SafeCover(s)
  {
    forall e | Matched(s, e)
      ensures SafelyMatched(s, e)
    {
      var n :| n in s && n.Matches(e);
      var w := WidestAround(s, n);
      forall m | m in s && m.net.ip == w.net.ip && m.Contains(w)
        ensures m == w
      {
        InclusionIsContainmentOfWiderNet(m, w);
      }
      assert Safe(w, s) && w.Matches(e);
    }
  }

  lemma SameMembersSameCover(a: seq<NetWithPortRange>, b: seq<NetWithPortRange>)
    requires forall n :: n in a <==> n in b
    ensures SafeCover(a) <==> SafeCover(b)
  {
    forall e
      ensures Matched(a, e) <==> Matched(b, e)
      ensures SafelyMatched(a, e) <==> SafelyMatched(b, e)
    {
      assert forall n :: Safe(n, a) <==> Safe(n, b);
    }
  }

  // When ties do not matter

  /** No entry of the result ties in the sort with an entry of another mask. */
  ghost predicate Untied(out: seq<NetWithPortRange>, s: seq<NetWithPortRange>) {
    forall k, b :: k in out && b in s && b.net.ip == k.net.ip && b.ports == k.ports ==> b == k
  }

  lemma AntichainMember(kept: seq<NetWithPortRange>, a: NetWithPortRange, b: NetWithPortRange)
    requires Antichain(kept) && a in kept && b in kept && a.Contains(b)
    ensures a == b
  {
    var i :| 0 <= i < |kept| && kept[i] == a;
    var j :| 0 <= j < |kept| && kept[j] == b;
  }

  lemma ContainsTransitive(a: NetWithPortRange, b: NetWithPortRange, c: NetWithPortRange)
    requires a.Contains(b) && b.Contains(c) && a.net.ones <= b.net.ones
    ensures a.Contains(c)
  {
    assert c.net.ip[..a.net.ones] == c.net.ip[..b.net.ones][..a.net.ones] == b.net.ip[..b.net.ones][..a.net.ones];
  }

  lemma MutualContainersTie(a: NetWithPortRange, b: NetWithPortRange)
    requires Valid(a) && Valid(b) && a.Contains(b) && b.Contains(a)
    ensures a.net.ip == b.net.ip && a.ports == b.ports
  {
    BaseIsLeast(a.net.ip, b.net.ip, a.net.ones);
    BaseIsLeast(b.net.ip, a.net.ip, b.net.ones);
    CompareBitsOrder(a.net.ip, b.net.ip);
  }

  /** Containment reaches through an untied kept entry. */
  lemma ContainsThroughUntied(out: seq<NetWithPortRange>, s: seq<NetWithPortRange>,
                              a: NetWithPortRange, k: NetWithPortRange, c: NetWithPortRange)
    requires AllValid(s) && KeepsMaximal(out, s) && Untied(out, s) && k in out && a in s
    requires a.Contains(k) && k.Contains(c)
    ensures a.Contains(c)
  {
    if a.net.ones <= k.net.ones {
      ContainsTransitive(a, k, c);
    } else {
      SharedBase(a, k);
      var i := AbsorberOf(out, s, a);
      AntichainMember(out, out[i], k);
      assert k.Contains(a);
    }
  }

  lemma UntiedIsKeptByOthers(out: seq<NetWithPortRange>, other: seq<NetWithPortRange>, s: seq<NetWithPortRange>,
                             k: NetWithPortRange)
    requires AllValid(s) && KeepsMaximal(out, s) && KeepsMaximal(other, s) && Untied(out, s) && k in out
    ensures k in other
  {
    hide NetWithPortRange.Contains, Valid;
    var i := AbsorberOf(other, s, k);
    var n := other[i];
    var j := AbsorberOf(out, s, n);
    var m := out[j];
    var h := AbsorberOf(other, s, m);
    var l := other[h];
    ContainsThroughUntied(out, s, l, m, n);
    AntichainMember(other, l, n);
    MutualContainersTie(m, n);
    AntichainMember(out, n, k);
  }

  lemma UntiedResultsAgree(out: seq<NetWithPortRange>, other: seq<NetWithPortRange>, s: seq<NetWithPortRange>)
    requires AllValid(s) && KeepsMaximal(out, s) && KeepsMaximal(other, s) && Untied(out, s)
    ensures out == other
  {
    hide NetWithPortRange.Contains, Valid;
    forall k | k in out
      ensures k in other
    {
      UntiedIsKeptByOthers(out, other, s, k);
    }
    forall k | k in other
      ensures k in out
    {
      var i := AbsorberOf(out, s, k);
      AntichainMember(other, out[i], k);
    }
    SortedListsAgree(out, other);
  }

  /** The exact condition for the ties of the sort not to matter. */
  lemma UntiedIffOneResult(out: seq<NetWithPortRange>, s: seq<NetWithPortRange>)
    requires AllValid(s) && Deduplicated(out, s)
    ensures Untied(out, s) <==> forall other :: Deduplicated(other, s) ==> other == out
  {
    DeduplicatedSelects(out, s);
    if Untied(out, s) {
      forall other | Deduplicated(other, s)
        ensures other == out
      {
        DeduplicatedSelects(other, s);
        UntiedResultsAgree(out, other, s);
      }
    } else {
      var k, b :| k in out && b in s && b.net.ip == k.net.ip && b.ports == k.ports && b != k;
      var t := TiedIsLost(s, b, k);
      assert Deduplicated(FoldAll(t), s) && k !in FoldAll(t);
    }
  }

  lemma {:induction false} CommonPrefix<T>(a: seq<T>, b: seq<T>) returns (k: nat)
    ensures k <= |a| && k <= |b| && a[..k] == b[..k]
    ensures k < |a| && k < |b| ==> a[k] != b[k]
  {
    if a == [] || b == [] || a[0] != b[0] {
      k := 0;
    } else {
      var rest := CommonPrefix(a[1..], b[1..]);
      k := rest + 1;
      assert a[..k] == [a[0]] + a[1..][..rest] && b[..k] == [b[0]] + b[1..][..rest];
    }
  }

  /** The entry of one result at a common position lies in one of the other from there on. */
  lemma AbsorberFrom(out: seq<NetWithPortRange>, other: seq<NetWithPortRange>, s: seq<NetWithPortRange>, k: nat)
      returns (j: nat)
    requires KeepsMaximal(out, s) && KeepsMaximal(other, s) && k < |out| && k <= |other| && out[..k] == other[..k]
    ensures k <= j < |other| && other[j].Contains(out[k])
  {
    assert out[k] in s;
    assert forall i :: 0 <= i < k ==> out[i] == out[..k][i] == other[i];
    j := AbsorberOf(other, s, out[k]);
  }

  lemma LesserDifferenceTies(out: seq<NetWithPortRange>, other: seq<NetWithPortRange>, s: seq<NetWithPortRange>, k: nat)
    requires AllValid(s) && KeepsMaximal(out, s) && KeepsMaximal(other, s)
    requires k < |out| && k < |other| && out[..k] == other[..k] && out[k].Compare(other[k]) <= 0
    ensures out[k].net.ip == other[k].net.ip && out[k].ports == other[k].ports
  {
    var x, y := out[k], other[k];
    assert x in s && y in s;
    var j := AbsorberFrom(out, other, s, k);
    var z := other[j];
    assert z in s && y.Compare(z) <= 0 by { CompareOrder(y, y); }
    BetweenTies(x, y, z);
    assert j == k;
    var i := AbsorberFrom(other, out, s, k);
    assert out[i].Contains(x);
    assert i == k;
  }

  /** What is sorted between an entry and a later one that contains it lies in that too. */
  lemma BetweenTies(x: NetWithPortRange, y: NetWithPortRange, z: NetWithPortRange)
    requires Valid(x) && Valid(y) && Valid(z) && x.Compare(y) <= 0 && y.Compare(z) <= 0 && z.Contains(x)
    ensures x.net.ip == y.net.ip == z.net.ip && z.Contains(y)
    ensures x.ports.from == y.ports.from && x.ports.to <= y.ports.to
  {
    CompareTransitive(x, y, z);
    LateContainerSharesStart(x, z);
    CompareBitsOrder(x.net.ip, y.net.ip);
    CompareBitsOrder(y.net.ip, z.net.ip);
  }

  /** Two results of one list first differ in the mask of a tie. */
  lemma ResultsDifferInTie(out: seq<NetWithPortRange>, other: seq<NetWithPortRange>, s: seq<NetWithPortRange>)
      returns (k: nat)
    requires AllValid(s) && KeepsMaximal(out, s) && KeepsMaximal(other, s) && out != other
    ensures k < |out| && k < |other| && out[..k] == other[..k]
    ensures out[k].net.ip == other[k].net.ip && out[k].ports == other[k].ports && out[k].net.ones != other[k].net.ones
  {
    hide NetWithPortRange.Contains, NetWithPortRange.Compare, Valid, KeepsMaximal;
    k := CommonPrefix(out, other);
    if k < |out| { var j := AbsorberFrom(out, other, s, k); }
    if k < |other| { var j := AbsorberFrom(other, out, s, k); }
    CompareOrder(out[k], other[k]);
    if out[k].Compare(other[k]) <= 0 {
      LesserDifferenceTies(out, other, s, k);
    } else {
      LesserDifferenceTies(other, out, s, k);
    }
  }

  lemma MaximalIsUntied(out: seq<NetWithPortRange>, s: seq<NetWithPortRange>)
    requires AllValid(s) && NoShadow(s) && ExactlyMaximal(out, s)
    ensures Untied(out, s)
  {
    forall k, b | k in out && b in s && b.net.ip == k.net.ip && b.ports == k.ports
      ensures b == k
    {
      assert Maximal(k, s) && b.Contains(k);
      InclusionIsContainmentOfWiderNet(b, k);
    }
  }

  /** The maximal entries of a list, in order, are one particular list: the order in which
      the entries were given, and how the sort breaks ties, do not matter. */
  lemma {:induction false} DeduplicationIgnoresOrder(out1: seq<NetWithPortRange>, s1: seq<NetWithPortRange>,
                                                     out2: seq<NetWithPortRange>, s2: seq<NetWithPortRange>)
    requires ExactlyMaximal(out1, s1) && ExactlyMaximal(out2, s2)
    requires forall n :: n in s1 <==> n in s2
    ensures out1 == out2
  {
    assert forall n :: Maximal(n, s1) <==> Maximal(n, s2);
    SortedListsAgree(out1, out2);
  }

  lemma {:induction false} SortedListsAgree(a: seq<NetWithPortRange>, b: seq<NetWithPortRange>)
    requires StrictlySorted(a) && StrictlySorted(b) && forall n :: n in a <==> n in b
    ensures a == b
  {
    assert a != [] ==> a[0] in b;
    assert b != [] ==> b[0] in a;
    if a != [] {
      CompareOrder(a[0], b[0]);
      CompareOrder(a[0], a[0]);
      assert a[0] == b[0];
      assert a == [a[0]] + a[1..] && b == [b[0]] + b[1..];
      forall n | n in a[1..] || n in b[1..]
        ensures n in a[1..] && n in b[1..]
      {
        assert n in a && n in b && a[0].Compare(n) < 0;
      }
      SortedListsAgree(a[1..], b[1..]);
    }
  }

  /** A list and its maximal entries match the same endpoints. */
  lemma MaximalEntriesMatchTheSame(out: seq<NetWithPortRange>, s: seq<NetWithPortRange>, e: Endpoint)
    requires AllValid(s) && ExactlyMaximal(out, s)
    ensures Matched(out, e) <==> Matched(s, e)
  {
    if n :| n in s && n.Matches(e) {
      var m := WidestAround(s, n);
      assert m in out && Includes(m, n);
    }
    if n :| n in out && n.Matches(e) {
      assert Maximal(n, s);
    }
  }

  /** Every entry lies in a maximal one. */
  lemma {:induction false} WidestAround(s: seq<NetWithPortRange>, n: NetWithPortRange) returns (m: NetWithPortRange)
    requires AllValid(s) && n in s
    ensures Maximal(m, s) && Includes(m, n)
    decreases |set x | x in s && Includes(x, n)|
  {
    if Maximal(n, s) {
      m := n;
    } else {
      var w :| w in s && Includes(w, n) && w != n;
      if Includes(n, w) { IncludesAntisymmetric(n, w); }
      var around, wider := set x | x in s && Includes(x, n), set x | x in s && Includes(x, w);
      assert n in around && n !in wider;
      assert wider < around by {
        forall x | x in wider
          ensures x in around
        {
        }
      }
      SubsetSize(wider, around);
      m := WidestAround(s, w);
    }
  }

  // Excludes

  predicate OverlapsSome(includes: seq<NetWithPortRange>, n: NetWithPortRange) {
    exists i :: 0 <= i < |includes| && includes[i].Overlap(n)
  }

  function Unneeded(includes: seq<NetWithPortRange>): NetWithPortRange -> bool {
    n => !OverlapsSome(includes, n)
  }

  method NecessaryExcludes(excludes: seq<NetWithPortRange>, includes: seq<NetWithPortRange>)
      returns (result: seq<NetWithPortRange>)
    ensures result == DeleteFunc(excludes, Unneeded(includes))
  {
    hide NetWithPortRange.Overlap;
    result := [];
    for k := 0 to |excludes|
      invariant result == DeleteFunc(excludes[..k], Unneeded(includes))
    {
      var exclude := excludes[k];
      DeleteFuncStep(excludes, k, Unneeded(includes));
      var j := 0;
      while j < |includes|
        invariant j <= |includes| && forall i :: 0 <= i < j ==> !includes[i].Overlap(exclude)
      {
        if includes[j].Overlap(exclude) {
          result := result + [exclude];
          break;
        }
        j := j + 1;
      }
      assert j < |includes| <==> OverlapsSome(includes, exclude);
    }
    assert excludes[..|excludes|] == excludes;
  }

  lemma DeleteFuncStep<T(!new)>(s: seq<T>, k: nat, del: T -> bool)
    requires k < |s|
    ensures DeleteFunc(s[..k+1], del) == DeleteFunc(s[..k], del) + if del(s[k]) then [] else [s[k]]
  {
    assert s[..k+1][..k] == s[..k];
  }

  function Needed(excludes: seq<NetWithPortRange>, includes: seq<NetWithPortRange>): seq<NetWithPortRange> {
    DeleteFunc(excludes, Unneeded(includes))
  }

  lemma {:induction false} DeleteFuncOfRearranged<T(!new)>(a: seq<T>, b: seq<T>, del: T -> bool)
    requires multiset(a) == multiset(b)
    ensures multiset(DeleteFunc(a, del)) == multiset(DeleteFunc(b, del))
  {
    DeleteFuncCounts(a, del);
    DeleteFuncCounts(b, del);
  }

  lemma {:induction false} DeleteFuncCounts<T(!new)>(s: seq<T>, del: T -> bool)
    ensures forall x :: multiset(DeleteFunc(s, del))[x] == if del(x) then 0 else multiset(s)[x]
  {
    if s != [] {
      DeleteFuncCounts(s[..|s|-1], del);
      assert s == s[..|s|-1] + [s[|s|-1]];
    }
  }

  // The optimised filter

  /** How the optimised filter comes from the given one. */
  ghost predicate OptimizesTo(f: Filter, g: Filter) {
    Deduplicated(g.included, f.included) && Deduplicated(g.excluded, Needed(f.excluded, g.included))
  }

  /** What it is meant to be. */
  ghost predicate Optimized(f: Filter, g: Filter) {
    ExactlyMaximal(g.included, f.included) && ExactlyMaximal(g.excluded, Needed(f.excluded, g.included))
  }

  ghost predicate ValidFilter(f: Filter) { AllValid(f.included) && AllValid(f.excluded) }

  /** No include shadows a maximal one, and no needed exclude a maximal needed one. */
  ghost predicate WellFormed(f: Filter) {
    ValidFilter(f) && NoShadow(f.included) && NoShadow(Needed(f.excluded, f.included))
  }

  method OptimizeFilter(included: array<NetWithPortRange>, excluded: array<NetWithPortRange>) returns (g: Filter)
    modifies included
    ensures multiset(included[..]) == multiset(old(included[..]))
    ensures var f := Filter(old(included[..]), old(excluded[..]));
      && OptimizesTo(f, g)
      && |g.included| <= |f.included| && |g.excluded| <= |f.excluded|
      && (ValidFilter(f) ==> ValidFilter(g)) && (WellFormed(f) ==> Optimized(f, g))
  {
    hide AllValid, NoShadow, ExactlyMaximal, Unneeded, KeepsMaximal, Deduplicated;
    ghost var f := Filter(included[..], excluded[..]);
    var includes := Deduplicate(included);
    ghost var before := excluded[..];
    var necessary := NecessaryExcludes(excluded[..], includes);
    DeleteFuncOfRearranged(before, f.excluded, Unneeded(includes));
    var copy := new NetWithPortRange[|necessary|](i requires 0 <= i < |necessary| => necessary[i]);
    assert copy[..] == necessary;
    var excludes := Deduplicate(copy);
    DeduplicatedFromRearranged(excludes, necessary, Needed(f.excluded, includes));
    g := Filter(includes, excludes);
    OptimizedSelects(f, g);
    if WellFormed(f) { WellFormedIsOptimized(f, g); }
  }

  lemma DeduplicatedFromRearranged(out: seq<NetWithPortRange>, a: seq<NetWithPortRange>, b: seq<NetWithPortRange>)
    requires Deduplicated(out, a) && multiset(a) == multiset(b)
    ensures Deduplicated(out, b)
  {
    var t :| IsSortOf(t, a) && out == FoldAll(t);
    assert IsSortOf(t, b);
  }

  lemma OptimizedSelects(f: Filter, g: Filter)
    requires OptimizesTo(f, g)
    ensures |g.included| <= |f.included| && forall n :: n in g.included ==> n in f.included
    ensures |g.excluded| <= |f.excluded|
    ensures forall n :: n in g.excluded ==> n in f.excluded && OverlapsSome(g.included, n)
    ensures ValidFilter(f) ==> ValidFilter(g)
  {
    DeduplicatedSelects(g.included, f.included);
    DeduplicatedSelects(g.excluded, Needed(f.excluded, g.included));
  }

  /** Both lists match the same endpoints. */
  ghost predicate MatchSame(a: seq<NetWithPortRange>, b: seq<NetWithPortRange>) {
    forall e :: Matched(a, e) <==> Matched(b, e)
  }

  lemma MatchingTheSameOverlapsTheSame(a: seq<NetWithPortRange>, b: seq<NetWithPortRange>, n: NetWithPortRange)
    requires AllValid(a) && AllValid(b) && MatchSame(a, b) && Valid(n) && OverlapsSome(a, n)
    ensures OverlapsSome(b, n)
  {
    var i :| 0 <= i < |a| && a[i].Overlap(n);
    OverlapIsSharedEndpoint(a[i], n);
    var e: Endpoint :| a[i].Matches(e) && n.Matches(e);
    assert Matched(b, e);
    var j :| 0 <= j < |b| && b[j].Matches(e);
    OverlapIsSharedEndpoint(b[j], n);
  }

  lemma SameMembersSameShadows(a: seq<NetWithPortRange>, b: seq<NetWithPortRange>)
    requires forall n :: n in a <==> n in b
    ensures NoShadow(a) <==> NoShadow(b)
  {
    assert forall n :: Maximal(n, a) <==> Maximal(n, b);
  }

  lemma NeededByEither(excludes: seq<NetWithPortRange>, a: seq<NetWithPortRange>, b: seq<NetWithPortRange>)
    requires AllValid(excludes) && AllValid(a) && AllValid(b) && MatchSame(a, b)
    ensures forall n :: n in Needed(excludes, a) <==> n in Needed(excludes, b)
  {
    forall n | n in excludes
      ensures OverlapsSome(a, n) <==> OverlapsSome(b, n)
    {
      if OverlapsSome(a, n) { MatchingTheSameOverlapsTheSame(a, b, n); }
      if OverlapsSome(b, n) { MatchingTheSameOverlapsTheSame(b, a, n); }
    }
  }

  lemma MaximalIncludesNeedTheSame(f: Filter, includes: seq<NetWithPortRange>)
    requires ValidFilter(f) && ExactlyMaximal(includes, f.included)
    ensures forall n :: n in Needed(f.excluded, includes) <==> n in Needed(f.excluded, f.included)
  {
    forall e
      ensures Matched(includes, e) <==> Matched(f.included, e)
    {
      MaximalEntriesMatchTheSame(includes, f.included, e);
    }
    NeededByEither(f.excluded, includes, f.included);
  }

  lemma WellFormedIsOptimized(f: Filter, g: Filter)
    requires WellFormed(f) && OptimizesTo(f, g)
    ensures Optimized(f, g)
  {
    hide NoShadow, ExactlyMaximal, Deduplicated;
    NoShadowIsExactness(f.included);
    MaximalIncludesNeedTheSame(f, g.included);
    SameMembersSameShadows(Needed(f.excluded, f.included), Needed(f.excluded, g.included));
    NoShadowIsExactness(Needed(f.excluded, g.included));
  }

  /** The optimised filter is what it is meant to be, however the sorts break ties, exactly
      for well-formed filters. */
  lemma OptimizedIffWellFormed(f: Filter)
    requires ValidFilter(f)
    ensures WellFormed(f) <==> forall g :: OptimizesTo(f, g) ==> Optimized(f, g)
  {
    hide NoShadow, ExactlyMaximal, Deduplicated;
    if WellFormed(f) {
      forall g | OptimizesTo(f, g)
        ensures Optimized(f, g)
      {
        WellFormedIsOptimized(f, g);
      }
    } else {
      var g := SomeInexactResult(f);
    }
  }

  lemma SomeInexactResult(f: Filter) returns (g: Filter)
    requires ValidFilter(f) && !WellFormed(f)
    ensures OptimizesTo(f, g) && !Optimized(f, g)
  {
    hide NoShadow, ExactlyMaximal, Deduplicated;
    NoShadowIsExactness(f.included);
    if !NoShadow(f.included) {
      var includes :| Deduplicated(includes, f.included) && !ExactlyMaximal(includes, f.included);
      var excludes := SomeResult(Needed(f.excluded, includes));
      g := Filter(includes, excludes);
    } else {
      var includes := SomeResult(f.included);
      MaximalIncludesNeedTheSame(f, includes);
      SameMembersSameShadows(Needed(f.excluded, f.included), Needed(f.excluded, includes));
      NoShadowIsExactness(Needed(f.excluded, includes));
      var excludes :| Deduplicated(excludes, Needed(f.excluded, includes))
        && !ExactlyMaximal(excludes, Needed(f.excluded, includes));
      g := Filter(includes, excludes);
    }
  }

  lemma SomeResult(s: seq<NetWithPortRange>) returns (out: seq<NetWithPortRange>)
    ensures Deduplicated(out, s)
  {
    CompareIsTotalPreorder();
    var t := SortedExists(s, CompareNets);
    out := FoldAll(t);
    assert IsSortOf(t, s);
  }

  /** An exclude list without shadowed maximal entries has none among the needed ones. */
  lemma NoShadowAmongNeeded(excludes: seq<NetWithPortRange>, includes: seq<NetWithPortRange>)
    requires AllValid(excludes) && AllValid(includes) && NoShadow(excludes)
    ensures NoShadow(Needed(excludes, includes))
  {
    var needed := Needed(excludes, includes);
    forall b | Maximal(b, needed)
      ensures Maximal(b, excludes)
    {
      var i :| 0 <= i < |includes| && includes[i].Overlap(b);
      forall m | m in excludes && Includes(m, b)
        ensures m == b
      {
        OverlapIsSharedEndpoint(includes[i], b);
        OverlapIsSharedEndpoint(includes[i], m);
        assert OverlapsSome(includes, m);
      }
    }
  }

  // What optimising keeps

  /** Safe includes cover the includes, and safe needed excludes the needed ones. */
  ghost predicate SafeFilter(f: Filter) {
    ValidFilter(f) && SafeCover(f.included) && SafeCover(Needed(f.excluded, f.included))
  }

  /** The includes match what they matched, and the excludes what the needed ones did. */
  ghost predicate KeepsBoth(f: Filter, g: Filter) {
    MatchSame(g.included, f.included) && MatchSame(g.excluded, Needed(f.excluded, f.included))
  }

  lemma WellFormedIsSafe(f: Filter)
    requires WellFormed(f)
    ensures SafeFilter(f)
  {
    NoShadowIsSafeCover(f.included);
    NoShadowIsSafeCover(Needed(f.excluded, f.included));
  }

  lemma SafeFilterIsKept(f: Filter, g: Filter)
    requires SafeFilter(f) && OptimizesTo(f, g)
    ensures KeepsBoth(f, g)
  {
    hide Deduplicated, SafeCover, Matched, Unneeded;
    SafeCoverIffKept(f.included);
    OptimizedSelects(f, g);
    NeededByEither(f.excluded, g.included, f.included);
    var needed := Needed(f.excluded, g.included);
    SameMembersSameCover(needed, Needed(f.excluded, f.included));
    SafeCoverIffKept(needed);
    SameMembersMatchSame(needed, Needed(f.excluded, f.included));
  }

  lemma SameMembersMatchSame(a: seq<NetWithPortRange>, b: seq<NetWithPortRange>)
    requires forall n :: n in a <==> n in b
    ensures MatchSame(a, b)
  {
  }

  /** The exact condition for the optimised includes and excludes to match what they should,
      however the sorts break ties. */
  lemma SafeFilterIffKept(f: Filter)
    requires ValidFilter(f)
    ensures SafeFilter(f) <==> forall g :: OptimizesTo(f, g) ==> KeepsBoth(f, g)
  {
    hide Deduplicated, SafeCover, MatchSame;
    if SafeFilter(f) {
      forall g | OptimizesTo(f, g)
        ensures KeepsBoth(f, g)
      {
        SafeFilterIsKept(f, g);
      }
    } else {
      var g := SomeUnfaithfulResult(f);
    }
  }

  lemma SomeUnfaithfulResult(f: Filter) returns (g: Filter)
    requires ValidFilter(f) && !SafeFilter(f)
    ensures OptimizesTo(f, g) && !KeepsBoth(f, g)
  {
    hide SafeCover, Matched, Unneeded, Deduplicated;
    if !SafeCover(f.included) {
      var includes := SomeLoss(f.included);
      var excludes := SomeResult(Needed(f.excluded, includes));
      g := Filter(includes, excludes);
    } else {
      var includes := SomeResult(f.included);
      SafeCoverIffKept(f.included);
      DeduplicatedSelects(includes, f.included);
      NeededByEither(f.excluded, includes, f.included);
      var needed := Needed(f.excluded, includes);
      SameMembersSameCover(needed, Needed(f.excluded, f.included));
      SameMembersMatchSame(needed, Needed(f.excluded, f.included));
      var excludes := SomeLoss(needed);
      g := Filter(includes, excludes);
    }
  }

  lemma SomeLoss(s: seq<NetWithPortRange>) returns (out: seq<NetWithPortRange>)
    requires AllValid(s) && !SafeCover(s)
    ensures Deduplicated(out, s) && !MatchSame(out, s)
  {
    hide Deduplicated, SafeCover, Matched;
    SafeCoverIffKept(s);
    var e: Endpoint;
    out, e :| Deduplicated(out, s) && Matched(out, e) != Matched(s, e);
  }

  /** The optimised excludes match exactly where some needed exclude did. */
  lemma OptimizedKeepsNeededExcludes(f: Filter, g: Filter, e: Endpoint)
    requires SafeFilter(f) && OptimizesTo(f, g)
    ensures Matched(g.included, e) <==> Matched(f.included, e)
    ensures Matched(g.excluded, e)
       <==> exists n :: n in f.excluded && OverlapsSome(f.included, n) && n.Matches(e)
    ensures Matched(g.included, e) ==> (Matched(g.excluded, e) <==> Matched(f.excluded, e))
  {
    hide SafeCover, Deduplicated;
    SafeFilterIsKept(f, g);
    NeededMatch(f.excluded, f.included, e);
    if Matched(f.included, e) { NeededInside(f.excluded, f.included, e); }
  }

  lemma NeededMatch(excludes: seq<NetWithPortRange>, includes: seq<NetWithPortRange>, e: Endpoint)
    ensures Matched(Needed(excludes, includes), e)
       <==> exists n :: n in excludes && OverlapsSome(includes, n) && n.Matches(e)
  {
    assert forall n :: n in Needed(excludes, includes) <==> n in excludes && OverlapsSome(includes, n);
  }

  /** Inside the includes the needed excludes match where all excludes do. */
  lemma NeededInside(excludes: seq<NetWithPortRange>, includes: seq<NetWithPortRange>, e: Endpoint)
    requires AllValid(excludes) && AllValid(includes) && Matched(includes, e)
    ensures Matched(Needed(excludes, includes), e) <==> Matched(excludes, e)
  {
    if n :| n in excludes && n.Matches(e) {
      var i :| 0 <= i < |includes| && includes[i].Matches(e);
      OverlapIsSharedEndpoint(includes[i], n);
      assert OverlapsSome(includes, n);
    }
  }

  /** Optimising preserves the meaning of the filter at every endpoint. */
  lemma OptimizePreservesMeaning(f: Filter, g: Filter, e: Endpoint)
    requires SafeFilter(f) && OptimizesTo(f, g)
    ensures Selected(f, e) <==> Selected(g, e)
  {
    OptimizedKeepsNeededExcludes(f, g, e);
  }

  ghost predicate MeansSame(f: Filter, g: Filter) {
    forall e :: Selected(f, e) <==> Selected(g, e)
  }

  /** Safe includes match wherever the filter selects, and wherever optimised includes and an
      exclude meet, a safe one of the excludes they need matches. */
  ghost predicate SafelySelected(f: Filter) {
    && (forall e :: Selected(f, e) ==> SafelyMatched(f.included, e))
    && (forall includes, e :: Deduplicated(includes, f.included) && Matched(includes, e) && Matched(f.excluded, e)
          ==> SafelyMatched(Needed(f.excluded, includes), e))
  }

  /** The exact condition for the meaning alone. */
  lemma SafelySelectedIffMeaningKept(f: Filter)
    requires ValidFilter(f)
    ensures SafelySelected(f) <==> forall g :: OptimizesTo(f, g) ==> MeansSame(f, g)
  {
    hide Deduplicated, SafelyMatched, Matched;
    if SafelySelected(f) {
      forall g, e | OptimizesTo(f, g)
        ensures Selected(f, e) <==> Selected(g, e)
      {
        SelectedTheSame(f, g, e);
      }
    } else if e :| Selected(f, e) && !SafelyMatched(f.included, e) {
      SafelyMatchedIffAlwaysKept(f.included, e);
      var includes :| Deduplicated(includes, f.included) && !Matched(includes, e);
      var excludes := SomeResult(Needed(f.excluded, includes));
      var g := Filter(includes, excludes);
      assert OptimizesTo(f, g) && !MeansSame(f, g);
    } else {
      var includes, e :| Deduplicated(includes, f.included) && Matched(includes, e) && Matched(f.excluded, e)
        && !SafelyMatched(Needed(f.excluded, includes), e);
      SafelyMatchedIffAlwaysKept(Needed(f.excluded, includes), e);
      var excludes :| Deduplicated(excludes, Needed(f.excluded, includes)) && !Matched(excludes, e);
      var g := Filter(includes, excludes);
      assert OptimizesTo(f, g) && Selected(g, e) && !Selected(f, e);
    }
  }

  lemma SelectedTheSame(f: Filter, g: Filter, e: Endpoint)
    requires ValidFilter(f) && SafelySelected(f) && OptimizesTo(f, g)
    ensures Selected(f, e) <==> Selected(g, e)
  {
    hide Deduplicated, SafelyMatched, Unneeded;
    OptimizedSelects(f, g);
    SafelyMatchedIffAlwaysKept(f.included, e);
    SafelyMatchedIffAlwaysKept(Needed(f.excluded, g.included), e);
  }

  // Optimising a rearranged filter

  ghost predicate SameEntries(f: Filter, h: Filter) {
    (forall n :: n in f.included <==> n in h.included) && (forall n :: n in f.excluded <==> n in h.excluded)
  }

  /** No entry of the optimised filter ties with another one it was chosen from. */
  ghost predicate Settled(f: Filter, g: Filter) {
    Untied(g.included, f.included) && Untied(g.excluded, Needed(f.excluded, g.included))
  }

  /** The optimised form is the only one, in whatever order the lists come and however the
      sorts break ties, exactly when no entry of it ties with another. */
  lemma SettledIffOneForm(f: Filter, g: Filter)
    requires ValidFilter(f) && OptimizesTo(f, g)
    ensures Settled(f, g) <==> forall later, h :: SameEntries(f, later) && OptimizesTo(later, h) ==> h == g
  {
    hide Deduplicated, Untied, AllValid;
    if Settled(f, g) {
      forall later, h | SameEntries(f, later) && OptimizesTo(later, h)
        ensures h == g
      {
        SettledFormIsTheOnlyOne(f, g, later, h);
      }
    } else {
      var h := AnotherForm(f, g);
      assert SameEntries(f, f);
    }
  }

  lemma SettledFormIsTheOnlyOne(f: Filter, g: Filter, later: Filter, h: Filter)
    requires ValidFilter(f) && OptimizesTo(f, g) && Settled(f, g) && SameEntries(f, later) && OptimizesTo(later, h)
    ensures h == g
  {
    hide Untied, Valid;
    var needed := Needed(f.excluded, g.included);
    DeduplicatedSelects(g.included, f.included);
    DeduplicatedSelects(h.included, later.included);
    UntiedResultsAgree(g.included, h.included, f.included);
    DeduplicatedSelects(g.excluded, needed);
    DeduplicatedSelects(h.excluded, Needed(later.excluded, g.included));
    UntiedResultsAgree(g.excluded, h.excluded, needed);
  }

  lemma AnotherForm(f: Filter, g: Filter) returns (h: Filter)
    requires ValidFilter(f) && OptimizesTo(f, g) && !Settled(f, g)
    ensures OptimizesTo(f, h) && h != g
  {
    hide Deduplicated, Untied;
    if !Untied(g.included, f.included) {
      UntiedIffOneResult(g.included, f.included);
      var includes :| Deduplicated(includes, f.included) && includes != g.included;
      var excludes := SomeResult(Needed(f.excluded, includes));
      h := Filter(includes, excludes);
    } else {
      UntiedIffOneResult(g.excluded, Needed(f.excluded, g.included));
      var excludes :| Deduplicated(excludes, Needed(f.excluded, g.included)) && excludes != g.excluded;
      h := Filter(g.included, excludes);
    }
  }

  lemma WellFormedIsSettled(f: Filter, g: Filter)
    requires WellFormed(f) && OptimizesTo(f, g)
    ensures Settled(f, g)
  {
    hide Deduplicated, Untied, NoShadow, ExactlyMaximal;
    WellFormedIsOptimized(f, g);
    MaximalIncludesNeedTheSame(f, g.included);
    SameMembersSameShadows(Needed(f.excluded, f.included), Needed(f.excluded, g.included));
    MaximalIsUntied(g.included, f.included);
    MaximalIsUntied(g.excluded, Needed(f.excluded, g.included));
  }

  // A shadowed entry

  ghost predicate LosesEndpoint(s: seq<NetWithPortRange>, out: seq<NetWithPortRange>, e: Endpoint) {
    AllValid(s) && Deduplicated(out, s) && Matched(s, e) && !Matched(out, e)
  }

  /** The result depends on how the sort breaks ties, and can lose an endpoint. */
  ghost predicate TieDecides(s: seq<NetWithPortRange>) {
    exists out, other, e :: LosesEndpoint(s, out, e) && Deduplicated(other, s) && out != other
  }

  /** 128.0.0.0/1 and 128.0.0.0/2 tie in the sort, and the first one wins: in one order the
      scan drops the wider net and loses 192.0.0.0, in the other it keeps it. */
  lemma SharedBaseLosesEndpoints()
    ensures exists s :: Parsed(s) && TieDecides(s)
  {
    var base := [true] + seq(31, _ => false);
    var a := NetWithPortRange(Net(base, 2), PortRange(80, 80));
    var b := NetWithPortRange(Net(base, 1), PortRange(80, 80));
    var e := Endpoint([true, true] + seq(30, _ => false), 80);
    assert b.Matches(e) by { assert e.address[..1] == [true] == base[..1]; }
    assert !a.Matches(e) by { assert e.address[..2][1] != base[..2][1]; }
    WiderLosesTie(a, b, e);
    assert Parsed([a, b]);
  }

  lemma WiderLosesTie(a: NetWithPortRange, b: NetWithPortRange, e: Endpoint)
    requires Valid(a) && Valid(b) && a.ports == b.ports && a.net.ip == b.net.ip && b.net.ones < a.net.ones
    requires b.Matches(e) && !a.Matches(e)
    ensures TieDecides([a, b])
  {
    hide Valid, FoldAll, Sorted, NetWithPortRange.Matches;
    FirstOfTwoWins(a, b);
    FirstOfTwoWins(b, a);
    assert [a][0] != [b][0];
    assert b in [a, b] && multiset([a, b]) == multiset([b, a]);
    assert IsSortOf([a, b], [a, b]) && IsSortOf([b, a], [a, b]);
    assert Deduplicated([a], [a, b]) && Deduplicated([b], [a, b]);
    assert LosesEndpoint([a, b], [a], e);
  }

  /** A shadow can be harmless: 128.0.0.0/2 shadows 128.0.0.0/1, but with 192.0.0.0/2 it
      covers it. */
  lemma ShadowCanBeHarmless()
    ensures exists s :: Parsed(s) && !NoShadow(s) && SafeCover(s)
  {
    hide NoShadow, SafeCover, Valid;
    var base, upper := [true] + seq(31, _ => false), [true, true] + seq(30, _ => false);
    var w := NetWithPortRange(Net(base, 1), PortRange(80, 80));
    var a := NetWithPortRange(Net(base, 2), PortRange(80, 80));
    var b := NetWithPortRange(Net(upper, 2), PortRange(80, 80));
    HalvesCover(w, a, b);
    assert Parsed([w, a, b]);
  }

  lemma HalvesCover(w: NetWithPortRange, a: NetWithPortRange, b: NetWithPortRange)
    requires w == NetWithPortRange(Net([true] + seq(31, _ => false), 1), PortRange(80, 80))
    requires a == w.(net := Net(w.net.ip, 2))
    requires b == w.(net := Net([true, true] + seq(30, _ => false), 2))
    ensures Valid(w) && Valid(a) && Valid(b) && !NoShadow([w, a, b]) && SafeCover([w, a, b])
  {
    var s := [w, a, b];
    assert a.net.ip[..2] == [true, false] && b.net.ip[..2] == [true, true] && w.net.ip[..1] == [true];
    assert w.net.ip[1] != b.net.ip[1];
    assert w in s && a in s && b in s;
    InclusionIsContainmentOfWiderNet(a, w);
    InclusionIsContainmentOfWiderNet(b, w);
    assert a.net.ip[..2] != b.net.ip[..2];
    assert Maximal(w, s) && a.Contains(w);
    assert Safe(a, s) && Safe(b, s);
    forall e | Matched(s, e)
      ensures SafelyMatched(s, e)
    {
      HalfMatches(w, a, b, e);
    }
  }

  lemma HalfMatches(w: NetWithPortRange, a: NetWithPortRange, b: NetWithPortRange, e: Endpoint)
    requires |w.net.ip| == |a.net.ip| == |b.net.ip| == 32 && w.net.ones == 1 && a.net.ones == b.net.ones == 2
    requires w.net.ip[..1] == [true] && a.net.ip[..2] == [true, false] && b.net.ip[..2] == [true, true]
    requires w.ports == a.ports == b.ports && (w.Matches(e) || a.Matches(e) || b.Matches(e))
    ensures a.Matches(e) || b.Matches(e)
  {
    if w.Matches(e) {
      assert e.address[..1] == [true];
      var second := e.address[1];
      assert e.address[..2] == [e.address[..1][0], second];
      if second {
        assert b.Matches(e);
      } else {
        assert a.Matches(e);
      }
    }
  }

  lemma FirstOfTwoWins(a: NetWithPortRange, b: NetWithPortRange)
    requires Valid(a) && a.ports == b.ports && a.net.ip == b.net.ip
    ensures Sorted([a, b], CompareNets) && FoldAll([a, b]) == [a]
  {
    CompareOrder(a, b);
    var s := [a, b];
    assert s[..1] == [a] && s[..1][..0] == [];
    assert FoldAll([]) == [];
    assert FoldAll(s[..1]) == Fold(FoldAll(s[..1][..0]), a) == [a];
    assert FirstRelated([a], b) == 0 && a.Contains(b);
  }
}
