/** Saved qdiscs and the parent-first order in which they are replayed. */
module Qdiscs {
  import opened Slices

  /** A 32-bit handle: the major number in the upper half, the minor in the lower. */
  type Handle = h: nat | h < 0x1_0000_0000

  datatype Kind = Mq | Clsact | Ingress | Noqueue | PfifoFast | OtherKind(name: string)

  /** A qdisc of the snapshot or of the live tree; `stats` says whether it carries the
      kernel's counters, `options` stands for its settings. */
  datatype Qdisc = Qdisc(ifindex: nat, kind: Kind, handle: Handle, parent: Handle, options: string, stats: bool)

  const TC_H_ROOT: Handle := 0xffffffff

  /** The handle with its lower half cleared. */
  function HandleMajor(h: Handle): Handle { h - h % 0x1_0000 }

  predicate IsRootQdisc(q: Qdisc) { q.parent == TC_H_ROOT || q.parent == 0 }

  predicate IsKernelAutoManaged(kind: Kind) { !kind.OtherKind? }

  predicate ShouldSkipQdiscOnRestore(q: Qdisc) {
    IsKernelAutoManaged(q.kind) || (!IsRootQdisc(q) && HandleMajor(q.parent) == 0)
  }

  // What the kernel makes of parents and kinds

  /** The parents that mark a root. */
  predicate AtRoot(parent: Handle) { parent == 0xffff_ffff || parent == 0 }

  /** The kinds the kernel attaches by itself, or that have nothing to restore. */
  predicate KernelAttached(kind: Kind) { kind in {Mq, Clsact, Ingress, Noqueue, PfifoFast} }

  /** A qdisc there is something to restore of and a parent to restore it under. */
  predicate Wanted(q: Qdisc) {
    !KernelAttached(q.kind) && (AtRoot(q.parent) || HandleMajor(q.parent) != 0)
  }

  // Parents within the snapshot

  /** Majors to positions; a repeated major names the last qdisc with it. */
  function Index(qs: seq<Qdisc>): map<Handle, nat> {
    if qs == [] then map[]
    else
      var i := |qs| - 1;
      if qs[i].handle != 0 then Index(qs[..i])[HandleMajor(qs[i].handle) := i] else Index(qs[..i])
  }

  lemma {:induction false} IndexInRange(qs: seq<Qdisc>)
    ensures forall m :: m in Index(qs) ==>
      0 <= Index(qs)[m] < |qs| && qs[Index(qs)[m]].handle != 0 && HandleMajor(qs[Index(qs)[m]].handle) == m
    ensures forall i :: 0 <= i < |qs| && qs[i].handle != 0 ==> HandleMajor(qs[i].handle) in Index(qs)
  {
    if qs != [] {
      var before := qs[..|qs|-1];
      IndexInRange(before);
      forall m | m in Index(qs)
        ensures 0 <= Index(qs)[m] < |qs| && HandleMajor(qs[Index(qs)[m]].handle) == m && qs[Index(qs)[m]].handle != 0
      {
        if m in Index(before) { assert before[Index(before)[m]] == qs[Index(before)[m]]; }
      }
    }
  }

  predicate HasHandleMajor(q: Qdisc, m: Handle) { q.handle != 0 && HandleMajor(q.handle) == m }

  /** Position `i` is the last one with major `m`. */
  predicate LastWithMajor(qs: seq<Qdisc>, i: nat, m: Handle) {
    i < |qs| && HasHandleMajor(qs[i], m) && forall j :: i < j < |qs| ==> !HasHandleMajor(qs[j], m)
  }

  /** The index knows exactly the majors in use, each at the last position that has it. */
  lemma {:induction false} IndexIsLast(qs: seq<Qdisc>, m: Handle)
    ensures m in Index(qs) <==> exists i :: 0 <= i < |qs| && HasHandleMajor(qs[i], m)
    ensures m in Index(qs) ==> LastWithMajor(qs, Index(qs)[m], m)
  {
    if qs != [] {
      var n := |qs| - 1;
      IndexIsLast(qs[..n], m);
      if HasHandleMajor(qs[n], m) {
        assert Index(qs)[m] == n;
      } else if m in Index(qs) {
        assert HasHandleMajor(qs[..n][Index(qs)[m]], m);
        forall j | Index(qs)[m] < j < n
          ensures !HasHandleMajor(qs[j], m)
        {
          assert qs[..n][j] == qs[j];
        }
      } else {
        forall j | 0 <= j < n
          ensures !HasHandleMajor(qs[j], m)
        {
          assert !HasHandleMajor(qs[..n][j], m);
        }
      }
    }
  }

  method IndexQdiscsByHandleMajor(qs: seq<Qdisc>) returns (idx: map<Handle, nat>)
    ensures idx == Index(qs)
  {
    idx := map[];
    for i := 0 to |qs|
      invariant idx == Index(qs[..i])
    {
      assert qs[..i+1][..i] == qs[..i];
      if qs[i].handle != 0 {
        idx := idx[HandleMajor(qs[i].handle) := i];
      }
    }
    assert qs[..|qs|] == qs;
  }

  /** The position of the qdisc's parent, when it is not a root and its parent is saved too. */
  function ParentOf(qs: seq<Qdisc>, i: nat): (p: Option<nat>)
    requires i < |qs|
    ensures p.Some? ==> p.value < |qs| && HandleMajor(qs[p.value].handle) == HandleMajor(qs[i].parent)
    ensures p.Some? ==> qs[p.value].handle != 0
  {
    IndexInRange(qs);
    var m := HandleMajor(qs[i].parent);
    if !AtRoot(qs[i].parent) && m in Index(qs) then Some(Index(qs)[m]) else None
  }

  /** The parent chain ends within `depth` steps. */
  ghost predicate GroundedWithin(qs: seq<Qdisc>, i: nat, depth: nat)
    requires i < |qs|
    decreases depth
  {
    var p := ParentOf(qs, i);
    p.None? || (depth > 0 && GroundedWithin(qs, p.value, depth - 1))
  }

  /** The parent chain ends, at a root or outside the snapshot. */
  ghost predicate Grounded(qs: seq<Qdisc>, i: nat)
    requires i < |qs|
  {
    exists depth: nat :: GroundedWithin(qs, i, depth)
  }

  lemma GroundedByParent(qs: seq<Qdisc>, i: nat)
    requires i < |qs| && (ParentOf(qs, i).Some? ==> Grounded(qs, ParentOf(qs, i).value))
    ensures Grounded(qs, i)
  {
    if ParentOf(qs, i).Some? {
      var depth: nat :| GroundedWithin(qs, ParentOf(qs, i).value, depth);
      assert GroundedWithin(qs, i, depth + 1);
    } else {
      assert GroundedWithin(qs, i, 0);
    }
  }

  // Ordering

  ghost predicate Distinct(order: seq<nat>) {
    forall k, m :: 0 <= k < m < |order| ==> order[k] != order[m]
  }

  ghost predicate InRange(order: seq<nat>, n: nat) {
    forall k :: 0 <= k < |order| ==> order[k] < n
  }

  /** Every position listed comes after its parent. */
  ghost predicate ParentsFirst(qs: seq<Qdisc>, order: seq<nat>)
    requires InRange(order, |qs|)
  {
    forall k :: 0 <= k < |order| && ParentOf(qs, order[k]).Some? ==>
      ParentOf(qs, order[k]).value in order[..k]
  }

  function Picked(qs: seq<Qdisc>, order: seq<nat>): (out: seq<Qdisc>)
    requires InRange(order, |qs|)
    ensures |out| == |order|
  {
    seq(|order|, k requires 0 <= k < |order| => qs[order[k]])
  }

  /** The state of the passes: the positions emitted so far, in order. */
  ghost predicate Emitting(qs: seq<Qdisc>, emitted: seq<bool>, order: seq<nat>) {
    && |emitted| == |qs| && InRange(order, |qs|) && Distinct(order) && ParentsFirst(qs, order)
    && (forall k :: 0 <= k < |order| ==> emitted[order[k]] && Grounded(qs, order[k]))
    && (forall i :: 0 <= i < |emitted| && emitted[i] ==> i in order)
  }

  lemma EmitOne(qs: seq<Qdisc>, emitted: seq<bool>, order: seq<nat>, i: nat)
    requires Emitting(qs, emitted, order) && i < |qs| && !emitted[i]
    requires ParentOf(qs, i).Some? ==> emitted[ParentOf(qs, i).value]
    ensures Emitting(qs, emitted[i := true], order + [i])
    ensures Picked(qs, order + [i]) == Picked(qs, order) + [qs[i]]
  {
    var longer := order + [i];
    if ParentOf(qs, i).Some? {
      var k :| 0 <= k < |order| && order[k] == ParentOf(qs, i).value;
    }
    GroundedByParent(qs, i);
    assert forall k :: 0 <= k < |order| ==> longer[..k] == order[..k];
    assert longer[..|order|] == order;
    assert longer[|order|] == i;
    forall j | 0 <= j < |emitted| && emitted[i := true][j]
      ensures j in longer
    {
    }
  }

  /** One pass over the snapshot, emitting what has a known parent. */
  method EmitQdiscsWithKnownParents(qs: seq<Qdisc>, idx: map<Handle, nat>, emitted: array<bool>,
                                    out: seq<Qdisc>, ghost order: seq<nat>)
      returns (progress: bool, out': seq<Qdisc>, ghost order': seq<nat>)
    requires idx == Index(qs) && Emitting(qs, emitted[..], order) && out == Picked(qs, order)
    modifies emitted
    ensures Emitting(qs, emitted[..], order') && out' == Picked(qs, order')
    ensures |order'| >= |order| && (progress ==> |order'| > |order|)
    ensures !progress ==> forall i :: 0 <= i < |qs| && !emitted[i] ==>
      ParentOf(qs, i).Some? && !emitted[ParentOf(qs, i).value]
  {
    hide Emitting, Picked;
    progress, out', order' := false, out, order;
    EmittingLength(qs, emitted[..], order);
    for i := 0 to |qs|
      invariant emitted.Length == |qs| && Emitting(qs, emitted[..], order') && InRange(order', |qs|)
      invariant out' == Picked(qs, order')
      invariant |order'| >= |order| && (progress ==> |order'| > |order|)
      invariant !progress ==> forall j :: 0 <= j < i && !emitted[j] ==>
        ParentOf(qs, j).Some? && !emitted[ParentOf(qs, j).value]
    {
      if emitted[i] {
        continue;
      }
      IndexInRange(qs);
      var major := HandleMajor(qs[i].parent);
      if IsRootQdisc(qs[i]) || major !in idx || emitted[idx[major]] {
        EmitOne(qs, emitted[..], order', i);
        ghost var before := emitted[..];
        out' := out' + [qs[i]];
        order' := order' + [i];
        emitted[i] := true;
        assert emitted[..] == before[i := true];
        EmittingLength(qs, emitted[..], order');
        progress := true;
      }
    }
  }

  /** After a pass without progress the emitted qdiscs are exactly the grounded ones. */
  lemma {:induction false} FixedPoint(qs: seq<Qdisc>, emitted: seq<bool>, order: seq<nat>, i: nat, depth: nat)
    requires Emitting(qs, emitted, order) && i < |qs| && GroundedWithin(qs, i, depth)
    requires forall j :: 0 <= j < |qs| && !emitted[j] ==> ParentOf(qs, j).Some? && !emitted[ParentOf(qs, j).value]
    ensures emitted[i]
    decreases depth
  {
    if ParentOf(qs, i).Some? {
      FixedPoint(qs, emitted, order, ParentOf(qs, i).value, depth - 1);
    }
  }

  /** What the order promises: a permutation; the grounded qdiscs first, each after its
      parent; then the rest in the order of the snapshot. */
  ghost predicate RestoreOrder(qs: seq<Qdisc>, order: seq<nat>, grounded: nat) {
    && |order| == |qs| && InRange(order, |qs|) && Distinct(order) && (forall i :: 0 <= i < |qs| ==> i in order)
    && grounded <= |qs| && ParentsFirst(qs, order[..grounded])
    && (forall k :: 0 <= k < |qs| ==> (k < grounded <==> Grounded(qs, order[k])))
    && (forall k, m :: grounded <= k < m < |qs| ==> order[k] < order[m])
  }

  function UpTo(n: nat): (s: set<nat>)
    ensures |s| == n && forall i: nat :: i in s <==> i < n
  {
    if n == 0 then {} else UpTo(n - 1) + {n - 1}
  }

  function Elements(order: seq<nat>): (s: set<nat>)
    ensures forall i :: i in s <==> i in order
    ensures |s| <= |order| && (Distinct(order) ==> |s| == |order|)
  {
    if order == [] then {} else
      assert order == order[..|order|-1] + [order[|order|-1]];
      Elements(order[..|order|-1]) + {order[|order|-1]}
  }

  /** A list of distinct positions is no longer than the snapshot, and if as long, complete. */
  lemma DistinctFits(order: seq<nat>, n: nat)
    requires InRange(order, n) && Distinct(order)
    ensures |order| <= n
    ensures |order| == n ==> forall i :: 0 <= i < n ==> i in order
  {
    SubsetSize(Elements(order), UpTo(n));
  }

  /** Too many positions in a range repeat. */
  lemma Pigeonhole(order: seq<nat>, n: nat)
    requires InRange(order, n) && |order| > n
    ensures exists j, k :: 0 <= j < k < |order| && order[j] == order[k]
  {
    if Distinct(order) { DistinctFits(order, n); }
  }

  lemma EmittingLength(qs: seq<Qdisc>, emitted: seq<bool>, order: seq<nat>)
    requires Emitting(qs, emitted, order)
    ensures |emitted| == |qs| && InRange(order, |qs|) && |order| <= |qs|
  {
    DistinctFits(order, |qs|);
  }

  /** The state of the final loop: `front` is what the passes emitted, the rest is
      appended in input order up to position `n`. */
  ghost predicate Appending(qs: seq<Qdisc>, emitted: seq<bool>, front: seq<nat>, rest: seq<nat>, n: nat) {
    && Emitting(qs, emitted, front)
    && (forall k :: 0 <= k < |rest| ==> rest[k] < n && rest[k] < |qs| && !emitted[rest[k]])
    && (forall k, m :: 0 <= k < m < |rest| ==> rest[k] < rest[m])
    && (forall i :: 0 <= i < n && i < |qs| && !emitted[i] ==> i in rest)
  }

  lemma AppendOne(qs: seq<Qdisc>, emitted: seq<bool>, front: seq<nat>, rest: seq<nat>, n: nat)
    requires Appending(qs, emitted, front, rest, n) && n < |qs|
    ensures Appending(qs, emitted, front, if emitted[n] then rest else rest + [n], n + 1)
  {
  }

  lemma AllAppended(qs: seq<Qdisc>, emitted: seq<bool>, front: seq<nat>, rest: seq<nat>)
    requires Appending(qs, emitted, front, rest, |qs|)
    requires forall i :: 0 <= i < |qs| ==> (emitted[i] <==> Grounded(qs, i))
    ensures RestoreOrder(qs, front + rest, |front|)
  {
    var order := front + rest;
    assert order[..|front|] == front;
    assert Distinct(order);
    forall i | 0 <= i < |qs|
      ensures i in order
    {
    }
    SubsetSize(UpTo(|qs|), Elements(order));
    DistinctFits(order, |qs|);
  }

  /** Passes until nothing more can be emitted: at most one more than there are qdiscs. */
  method EmitToFixedPoint(qs: seq<Qdisc>)
      returns (emitted: array<bool>, out: seq<Qdisc>, ghost order: seq<nat>, ghost passes: nat)
    ensures emitted.Length == |qs| && Emitting(qs, emitted[..], order)
    ensures InRange(order, |qs|) && out == Picked(qs, order)
    ensures forall i :: 0 <= i < |qs| ==> (emitted[..][i] <==> Grounded(qs, i))
    ensures passes <= |qs| + 1
  {
    hide Emitting, Picked, ParentsFirst, Grounded;
    var idx := IndexQdiscsByHandleMajor(qs);
    out, order, passes := [], [], 0;
    emitted := new bool[|qs|](_ => false);
    NothingEmitted(qs, emitted[..]);
    var fixedPoint := false;
    while !fixedPoint
      invariant emitted.Length == |qs| && Emitting(qs, emitted[..], order) && InRange(order, |qs|)
      invariant out == Picked(qs, order) && |order| <= |qs|
      invariant passes <= |order| + if fixedPoint then 1 else 0
      invariant fixedPoint ==> forall i :: 0 <= i < |qs| && !emitted[i] ==>
        ParentOf(qs, i).Some? && !emitted[ParentOf(qs, i).value]
      decreases |qs| - |order|, if fixedPoint then 0 else 1
    {
      var progress;
      progress, out, order := EmitQdiscsWithKnownParents(qs, idx, emitted, out, order);
      EmittingLength(qs, emitted[..], order);
      fixedPoint := !progress;
      passes := passes + 1;
    }
    forall i | 0 <= i < |qs|
      ensures emitted[i] <==> Grounded(qs, i)
    {
      EmittedIsGrounded(qs, emitted[..], order, i);
    }
  }

  function Without<T>(s: seq<T>, k: nat): (r: seq<T>)
    requires k < |s|
    ensures |r| == |s| - 1 && forall j :: 0 <= j < |r| ==> r[j] == s[if j < k then j else j + 1]
  {
    s[..k] + s[k+1..]
  }

  lemma WithoutCounts<T>(s: seq<T>, k: nat)
    requires k < |s|
    ensures multiset(s) == multiset(Without(s, k)) + multiset{s[k]}
  {
    assert s == s[..k] + [s[k]] + s[k+1..];
  }

  /** Listing all positions once lists every qdisc once. */
  lemma {:induction false} PickedIsPermutation(qs: seq<Qdisc>, order: seq<nat>)
    requires InRange(order, |qs|) && Distinct(order) && |order| == |qs|
    ensures multiset(Picked(qs, order)) == multiset(qs)
    decreases |qs|
  {
    if qs == [] {
      assert Picked(qs, order) == qs;
    } else {
      hide Picked;
      var n := |qs| - 1;
      DistinctFits(order, |qs|);
      assert n in order;
      var k :| 0 <= k < |order| && order[k] == n;
      PickedWithout(qs, order, k);
      PickedIsPermutation(Without(qs, n), Without(order, k));
      WithoutCounts(Picked(qs, order), k);
      WithoutCounts(qs, n);
    }
  }

  lemma PickedWithout(qs: seq<Qdisc>, order: seq<nat>, k: nat)
    requires InRange(order, |qs|) && Distinct(order) && k < |order| && order[k] == |qs| - 1
    ensures InRange(Without(order, k), |qs| - 1) && Distinct(Without(order, k))
    ensures Picked(Without(qs, |qs| - 1), Without(order, k)) == Without(Picked(qs, order), k)
    ensures Picked(qs, order)[k] == qs[|qs|-1]
  {
    var rest := Without(order, k);
    forall j | 0 <= j < |rest|
      ensures rest[j] < |qs| - 1
    {
      assert rest[j] == order[if j < k then j else j + 1];
    }
  }

  /** The qdiscs in an order fit for replay, and how many passes it took to find it. */
  method OrderQdiscsForRestore(qs: seq<Qdisc>)
      returns (out: seq<Qdisc>, ghost order: seq<nat>, ghost grounded: nat, ghost passes: nat)
    ensures multiset(out) == multiset(qs)
    ensures RestoreOrder(qs, order, grounded) && out == Picked(qs, order)
    ensures passes <= |qs| + 1
  {
    hide Emitting, Picked, RestoreOrder, Appending, ParentsFirst, Grounded;
    if |qs| == 0 {
      EmptyOrder(qs);
      return [], [], 0, 0;
    }
    var emitted;
    emitted, out, order, passes := EmitToFixedPoint(qs);
    grounded := |order|;
    ghost var done := emitted[..];
    ghost var front: seq<nat>, rest: seq<nat> := order, [];
    StartAppending(qs, done, front);
    for i := 0 to |qs|
      invariant emitted[..] == done && Appending(qs, done, front, rest, i) && order == front + rest
      invariant InRange(order, |qs|) && out == Picked(qs, order)
    {
      AppendOne(qs, done, front, rest, i);
      if !emitted[i] {
        PickedNext(qs, order, i);
        out := out + [qs[i]];
        order := order + [i];
        rest := rest + [i];
      }
    }
    AllAppended(qs, done, front, rest);
    OrderIsPermutation(qs, order, grounded);
  }

  lemma OrderIsPermutation(qs: seq<Qdisc>, order: seq<nat>, grounded: nat)
    requires RestoreOrder(qs, order, grounded)
    ensures multiset(Picked(qs, order)) == multiset(qs)
  {
    PickedIsPermutation(qs, order);
  }

  lemma EmptyOrder(qs: seq<Qdisc>)
    requires qs == []
    ensures RestoreOrder(qs, [], 0) && Picked(qs, []) == []
  {
  }

  lemma NothingEmitted(qs: seq<Qdisc>, emitted: seq<bool>)
    requires |emitted| == |qs| && forall i :: 0 <= i < |qs| ==> !emitted[i]
    ensures Emitting(qs, emitted, []) && Picked(qs, []) == []
  {
  }

  lemma StartAppending(qs: seq<Qdisc>, emitted: seq<bool>, front: seq<nat>)
    requires Emitting(qs, emitted, front)
    ensures Appending(qs, emitted, front, [], 0) && front + [] == front
  {
  }

  lemma PickedNext(qs: seq<Qdisc>, order: seq<nat>, i: nat)
    requires InRange(order, |qs|) && i < |qs|
    ensures Picked(qs, order + [i]) == Picked(qs, order) + [qs[i]]
  {
  }

  lemma EmittedIsGrounded(qs: seq<Qdisc>, emitted: seq<bool>, order: seq<nat>, i: nat)
    requires Emitting(qs, emitted, order) && i < |qs|
    requires forall j :: 0 <= j < |qs| && !emitted[j] ==> ParentOf(qs, j).Some? && !emitted[ParentOf(qs, j).value]
    ensures emitted[i] <==> Grounded(qs, i)
  {
    if Grounded(qs, i) {
      var depth: nat :| GroundedWithin(qs, i, depth);
      FixedPoint(qs, emitted, order, i, depth);
    }
  }

  // The rest are the parent cycles

  /** The `k`-th ancestor within the snapshot. */
  function Ancestor(qs: seq<Qdisc>, i: nat, k: nat): (a: Option<nat>)
    requires i < |qs|
    ensures a.Some? ==> a.value < |qs|
    decreases k
  {
    if k == 0 then Some(i)
    else match Ancestor(qs, i, k - 1)
      case None => None
      case Some(p) => ParentOf(qs, p)
  }

  /** Following parents from `i` comes back to a qdisc already passed. */
  ghost predicate OnOrBelowCycle(qs: seq<Qdisc>, i: nat)
    requires i < |qs|
  {
    exists j: nat, k: nat :: j < k && Ancestor(qs, i, j).Some? && Ancestor(qs, i, j) == Ancestor(qs, i, k)
  }

  lemma {:induction false} GroundedAncestor(qs: seq<Qdisc>, i: nat, k: nat, depth: nat)
    requires i < |qs| && Ancestor(qs, i, k).Some?
    ensures GroundedWithin(qs, Ancestor(qs, i, k).value, depth) ==> GroundedWithin(qs, i, k + depth)
    ensures GroundedWithin(qs, i, depth) ==> k <= depth && GroundedWithin(qs, Ancestor(qs, i, k).value, depth - k)
    decreases k
  {
    if k > 0 {
      GroundedAncestor(qs, i, k - 1, depth + 1);
      GroundedAncestor(qs, i, k - 1, depth);
    }
  }

  lemma {:induction false} NoCycleAboveGrounded(qs: seq<Qdisc>, i: nat, j: nat, k: nat, depth: nat)
    requires i < |qs| && j < k && Ancestor(qs, i, j).Some? && Ancestor(qs, i, j) == Ancestor(qs, i, k)
    ensures !GroundedWithin(qs, i, depth)
    decreases depth
  {
    GroundedAncestor(qs, i, k, depth);
    if GroundedWithin(qs, i, depth) {
      GroundedAncestor(qs, i, j, depth - k);
      NoCycleAboveGrounded(qs, i, j, k, j + depth - k);
    }
  }

  lemma {:induction false} EndedChainIsGrounded(qs: seq<Qdisc>, i: nat, k: nat)
    requires i < |qs| && Ancestor(qs, i, k).None?
    ensures Grounded(qs, i)
    decreases k
  {
    if Ancestor(qs, i, k - 1).None? {
      EndedChainIsGrounded(qs, i, k - 1);
    } else {
      assert GroundedWithin(qs, Ancestor(qs, i, k - 1).value, 0);
      GroundedAncestor(qs, i, k - 1, 0);
    }
  }

  /** The qdiscs left for the tail are exactly those on or below a parent cycle. */
  lemma UngroundedIsCycle(qs: seq<Qdisc>, i: nat)
    requires i < |qs|
    ensures !Grounded(qs, i) <==> OnOrBelowCycle(qs, i)
  {
    if OnOrBelowCycle(qs, i) {
      var j: nat, k: nat :| j < k && Ancestor(qs, i, j).Some? && Ancestor(qs, i, j) == Ancestor(qs, i, k);
      forall depth: nat
        ensures !GroundedWithin(qs, i, depth)
      {
        NoCycleAboveGrounded(qs, i, j, k, depth);
      }
    } else if !Grounded(qs, i) {
      forall k: nat
        ensures Ancestor(qs, i, k).Some?
      {
        if Ancestor(qs, i, k).None? { EndedChainIsGrounded(qs, i, k); }
      }
      var chain := seq(|qs| + 1, k requires 0 <= k <= |qs| => Ancestor(qs, i, k).value);
      Pigeonhole(chain, |qs|);
    }
  }
}
