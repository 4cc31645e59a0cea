/** Replaying a snapshot onto the live qdisc trees: claiming root handles, re-anchoring
    children, and replacing qdiscs parent-first. */
module Restore {
  import opened Slices
  import opened Qdiscs

  datatype InterfaceSnapshot = InterfaceSnapshot(ifindex: nat, qdiscs: seq<Qdisc>)

  const TC_H_INGRESS: Handle := 0xfffffff1

  // The kernel: one list of live qdiscs for each interface

  type Tree = seq<Qdisc>

  predicate HasMajor(tree: Tree, major: Handle) {
    exists k :: 0 <= k < |tree| && HandleMajor(tree[k].handle) == major
  }

  /** The qdiscs at the ingress hook, which a new root leaves in place. */
  function HookQdiscs(tree: Tree): Tree {
    DeleteFunc(tree, (q: Qdisc) => q.parent != TC_H_INGRESS)
  }

  datatype Replaced = Done(tree: Tree) | Failed

  /** A new root takes the place of the whole root tree; any other qdisc needs a live
      parent, and no request may carry runtime counters. */
  function ReplaceQdisc(tree: Tree, q: Qdisc): Replaced {
    if q.stats then Failed
    else if AtRoot(q.parent) then Done(HookQdiscs(tree) + [q])
    else if HandleMajor(q.parent) != 0 && HasMajor(tree, HandleMajor(q.parent)) then Done(tree + [q])
    else Failed
  }

  function ClaimedTree(tree: Tree, ifindex: nat, handle: Handle, kind: Kind): Tree {
    HookQdiscs(tree) + [Qdisc(ifindex, kind, handle, TC_H_ROOT, "", false)]
  }

  /** What is live on an interface; nothing if there is no such interface. */
  function TreeOf(trees: map<nat, Tree>, ifindex: nat): Tree {
    if ifindex in trees then trees[ifindex] else []
  }

  datatype Request =
    | ClaimRequest(ifindex: nat, handle: Handle, kind: Kind)
    | ReplaceRequest(ifindex: nat, q: Qdisc)

  class Kernel {
    var trees: map<nat, Tree>
    ghost var requests: seq<Request>   // everything asked of the kernel so far

    method Replace(ifindex: nat, q: Qdisc) returns (ok: bool)
      modifies this
      ensures requests == old(requests) + [ReplaceRequest(ifindex, q)]
      ensures ifindex !in old(trees) ==> !ok && trees == old(trees)
      ensures ifindex in old(trees) ==> match ReplaceQdisc(old(trees)[ifindex], q)
        case Failed => !ok && trees == old(trees)
        case Done(tree) => ok && trees == old(trees)[ifindex := tree]
    {
      requests := requests + [ReplaceRequest(ifindex, q)];
      ok := false;
      if ifindex in trees {
        match ReplaceQdisc(trees[ifindex], q)
        case Failed =>
        case Done(tree) =>
          trees := trees[ifindex := tree];
          ok := true;
      }
    }

    /** Whether a claim goes through is up to the kernel. */
    method ClaimAutoManagedRoot(ifindex: nat, handle: Handle, kind: Kind) returns (ok: bool)
      modifies this
      ensures requests == old(requests) + [ClaimRequest(ifindex, handle, kind)]
      ensures trees == if ok && ifindex in old(trees)
        then old(trees)[ifindex := ClaimedTree(old(trees)[ifindex], ifindex, handle, kind)] else old(trees)
    {
      requests := requests + [ClaimRequest(ifindex, handle, kind)];
      ok := *;
      if ok && ifindex in trees {
        trees := trees[ifindex := ClaimedTree(trees[ifindex], ifindex, handle, kind)];
      }
    }
  }

  /** Skipping is lossless: apart from the kinds the kernel attaches, a qdisc is skipped exactly
      when replacing it fails over every tree. */
  lemma SkippedIffHopeless(q: Qdisc)
    ensures ShouldSkipQdiscOnRestore(q) <==> !Wanted(q)
    ensures ShouldSkipQdiscOnRestore(q)
       <==> KernelAttached(q.kind) || forall tree :: ReplaceQdisc(tree, q.(stats := false)) == Failed
  {
    if Wanted(q) {
      var tree := [q.(handle := HandleMajor(q.parent))];
      assert HandleMajor(HandleMajor(q.parent)) == HandleMajor(q.parent);
      assert HandleMajor(tree[0].handle) == HandleMajor(q.parent);
      assert HasMajor(tree, HandleMajor(q.parent));
      assert ReplaceQdisc(tree, q.(stats := false)) != Failed;
    }
  }

  // Re-anchoring

  ghost predicate LiveRoot(tree: Tree, k: nat, kind: Kind) {
    k < |tree| && AtRoot(tree[k].parent) && tree[k].kind == kind
  }

  ghost predicate FirstLiveRoot(tree: Tree, k: nat, kind: Kind) {
    LiveRoot(tree, k, kind) && forall j: nat :: j < k ==> !LiveRoot(tree, j, kind)
  }

  /** The major found is that of the first live root of the kind. */
  lemma {:induction false} FoundIsFirstLiveRoot(tree: Tree, kind: Kind)
    ensures FindLiveRootMajor(tree, kind) == None <==> forall k: nat :: !LiveRoot(tree, k, kind)
    ensures forall k: nat :: FirstLiveRoot(tree, k, kind) ==>
      FindLiveRootMajor(tree, kind) == Some(HandleMajor(tree[k].handle))
  {
    if tree != [] {
      FoundIsFirstLiveRoot(tree[1..], kind);
      assert forall k: nat :: LiveRoot(tree[1..], k, kind) ==> LiveRoot(tree, k + 1, kind);
      if !LiveRoot(tree, 0, kind) {
        forall k: nat | LiveRoot(tree, k, kind)
          ensures k > 0 && LiveRoot(tree[1..], k - 1, kind)
          ensures FirstLiveRoot(tree, k, kind) ==> FirstLiveRoot(tree[1..], k - 1, kind)
        {
          if FirstLiveRoot(tree, k, kind) {
            forall j: nat | j < k - 1
              ensures !LiveRoot(tree[1..], j, kind)
            {
              assert !LiveRoot(tree, j + 1, kind);
            }
          }
        }
      }
    }
  }

  function FindLiveRootMajor(tree: Tree, kind: Kind): Option<Handle> {
    if tree == [] then None
    else if IsRootQdisc(tree[0]) && tree[0].kind == kind then Some(HandleMajor(tree[0].handle))
    else FindLiveRootMajor(tree[1..], kind)
  }

  function RewriteMap(qs: seq<Qdisc>, tree: Tree): map<Handle, Handle> {
    if qs == [] then map[]
    else
      var saved, rest := qs[|qs|-1], RewriteMap(qs[..|qs|-1], tree);
      if !IsRootQdisc(saved) || !IsKernelAutoManaged(saved.kind) then rest
      else
        var live := FindLiveRootMajor(tree, saved.kind);
        if live.Some? && live.value != HandleMajor(saved.handle) then rest[HandleMajor(saved.handle) := live.value]
        else rest
  }

  method BuildAutoManagedRewriteMap(qs: seq<Qdisc>, tree: Tree) returns (rewrite: map<Handle, Handle>)
    ensures rewrite == RewriteMap(qs, tree)
  {
    rewrite := map[];
    for i := 0 to |qs|
      invariant rewrite == RewriteMap(qs[..i], tree)
    {
      assert qs[..i+1][..i] == qs[..i];
      if IsRootQdisc(qs[i]) && IsKernelAutoManaged(qs[i].kind) {
        var live := FindLiveRootMajor(tree, qs[i].kind);
        if live.Some? && live.value != HandleMajor(qs[i].handle) {
          rewrite := rewrite[HandleMajor(qs[i].handle) := live.value];
        }
      }
    }
    assert qs[..|qs|] == qs;
  }

  /** Major of one handle with the minor of another. */
  function WithMajor(major: Handle, h: Handle): Handle {
    HandleMajor(major) + h % 0x1_0000
  }

  function Rewritten(q: Qdisc, rewrite: map<Handle, Handle>): Qdisc {
    if !IsRootQdisc(q) && HandleMajor(q.parent) in rewrite
    then q.(parent := WithMajor(rewrite[HandleMajor(q.parent)], q.parent))
    else q
  }

  function ReAnchored(qs: seq<Qdisc>, tree: Tree): (r: seq<Qdisc>)
    ensures |r| == |qs|
  {
    seq(|qs|, i requires 0 <= i < |qs| => Rewritten(qs[i], RewriteMap(qs, tree)))
  }

  method ReAnchorAutoManagedParents(qs: seq<Qdisc>, tree: Tree) returns (anchored: seq<Qdisc>)
    ensures anchored == ReAnchored(qs, tree)
  {
    var rewrite := BuildAutoManagedRewriteMap(qs, tree);
    if |rewrite| == 0 {
      assert rewrite == map[];
      assert qs == ReAnchored(qs, tree);
      return qs;
    }
    anchored := [];
    for i := 0 to |qs|
      invariant anchored == seq(i, k requires 0 <= k < i => Rewritten(qs[k], rewrite))
    {
      anchored := anchored + [Rewritten(qs[i], rewrite)];
    }
  }

  /** Qdisc `i` is an auto-managed root of major `m` whose kind has a live root of another major. */
  predicate Moved(qs: seq<Qdisc>, tree: Tree, i: nat, m: Handle)
    requires i < |qs|
  {
    && AtRoot(qs[i].parent) && KernelAttached(qs[i].kind) && HandleMajor(qs[i].handle) == m
    && FindLiveRootMajor(tree, qs[i].kind).Some? && FindLiveRootMajor(tree, qs[i].kind).value != m
  }

  predicate LastMoved(qs: seq<Qdisc>, tree: Tree, i: nat, m: Handle) {
    i < |qs| && Moved(qs, tree, i, m) && forall j :: i < j < |qs| ==> !Moved(qs, tree, j, m)
  }

  /** Exactly the majors of such roots are rewritten, each to the live one of the last of them. */
  lemma {:induction false} RewritesMovedRoots(qs: seq<Qdisc>, tree: Tree, m: Handle)
    ensures m in RewriteMap(qs, tree) <==> exists i: nat :: LastMoved(qs, tree, i, m)
    ensures forall i: nat :: LastMoved(qs, tree, i, m) && m in RewriteMap(qs, tree) ==>
      FindLiveRootMajor(tree, qs[i].kind) == Some(RewriteMap(qs, tree)[m])
  {
    if qs != [] {
      var n := |qs| - 1;
      RewritesMovedRoots(qs[..n], tree, m);
      if Moved(qs, tree, n, m) {
        assert LastMoved(qs, tree, n, m);
      } else {
        forall i: nat
          ensures LastMoved(qs, tree, i, m) <==> LastMoved(qs[..n], tree, i, m)
        {
          LastMovedBefore(qs, tree, n, i, m);
        }
      }
    }
  }

  lemma LastMovedBefore(qs: seq<Qdisc>, tree: Tree, n: nat, i: nat, m: Handle)
    requires n + 1 == |qs| && !Moved(qs, tree, n, m)
    ensures LastMoved(qs, tree, i, m) <==> LastMoved(qs[..n], tree, i, m)
  {
    assert forall j :: 0 <= j < n ==> (Moved(qs, tree, j, m) <==> Moved(qs[..n], tree, j, m));
  }

  /** On any list, re-anchoring changes only parents, keeps their minors, and touches only
      children of a saved root that has moved. */
  lemma ReAnchoringIsConservative(qs: seq<Qdisc>, tree: Tree, i: nat)
    requires i < |qs|
    ensures var q, m, rewrite := ReAnchored(qs, tree)[i], HandleMajor(qs[i].parent), RewriteMap(qs, tree);
      && q == qs[i].(parent := q.parent) && q.parent % 0x1_0000 == qs[i].parent % 0x1_0000
      && (AtRoot(qs[i].parent) || m !in rewrite ==> q == qs[i])
      && (!AtRoot(qs[i].parent) && m in rewrite ==> HandleMajor(q.parent) == HandleMajor(rewrite[m]))
  {
    var m, rewrite := HandleMajor(qs[i].parent), RewriteMap(qs, tree);
    if m in rewrite { MajorReplaced(rewrite[m], qs[i].parent); }
  }

  // Replaying one interface

  function StripRuntimeStats(q: Qdisc): Qdisc { q.(stats := false) }

  datatype Run = Run(tree: Tree, failed: seq<Qdisc>)

  /** The tree and the failures after the first `n` qdiscs of the order. */
  function Replay(out: seq<Qdisc>, n: nat, tree: Tree): Run
    requires n <= |out|
  {
    if n == 0 then Run(tree, [])
    else
      var before, q := Replay(out, n - 1, tree), out[n-1];
      if ShouldSkipQdiscOnRestore(q) then before
      else match ReplaceQdisc(before.tree, StripRuntimeStats(q))
        case Done(next) => Run(next, before.failed)
        case Failed => Run(before.tree, before.failed + [q])
  }

  /** The requests for the first `n` qdiscs of the order. */
  function ReplayRequests(ifindex: nat, out: seq<Qdisc>, n: nat): seq<Request>
    requires n <= |out|
  {
    if n == 0 then []
    else
      var more := if ShouldSkipQdiscOnRestore(out[n-1]) then [] else [ReplaceRequest(ifindex, StripRuntimeStats(out[n-1]))];
      ReplayRequests(ifindex, out, n - 1) + more
  }

  /** Exactly the wanted qdiscs are requested, without their counters and otherwise as they are. */
  lemma {:induction false} RequestsAreWanted(ifindex: nat, out: seq<Qdisc>, n: nat, r: Request)
    requires n <= |out|
    ensures r in ReplayRequests(ifindex, out, n)
       <==> exists k :: 0 <= k < n && Wanted(out[k]) && r == ReplaceRequest(ifindex, out[k].(stats := false))
  {
    if n > 0 {
      RequestsAreWanted(ifindex, out, n - 1, r);
      SkippedIffHopeless(out[n-1]);
    }
  }

  /** Replacing without counters, and never a kind the kernel attaches. */
  ghost predicate ProperReplace(r: Request) {
    r.ReplaceRequest? && Wanted(r.q) && !r.q.stats
  }

  ghost predicate ProperSince(before: seq<Request>, after: seq<Request>) {
    before <= after && forall r :: r in after[|before|..] ==> ProperReplace(r)
  }

  lemma ProperTogether(a: seq<Request>, b: seq<Request>, c: seq<Request>)
    requires ProperSince(a, b) && ProperSince(b, c)
    ensures ProperSince(a, c)
  {
    assert c[|a|..] == b[|a|..] + c[|b|..];
  }

  /** The loop over the ordered qdiscs. */
  method ReplaceAll(kernel: Kernel, ifindex: nat, out: seq<Qdisc>) returns (failed: seq<Qdisc>)
    modifies kernel
    ensures ifindex in old(kernel.trees) ==>
      var run := Replay(out, |out|, old(kernel.trees)[ifindex]);
      failed == run.failed && kernel.trees == old(kernel.trees)[ifindex := run.tree]
    ensures ifindex !in old(kernel.trees) ==>
      kernel.trees == old(kernel.trees) && |failed| == |ReplayRequests(ifindex, out, |out|)|
    ensures kernel.requests == old(kernel.requests) + ReplayRequests(ifindex, out, |out|)
  {
    hide ReplaceQdisc, ShouldSkipQdiscOnRestore;
    failed := [];
    ghost var tree := TreeOf(kernel.trees, ifindex);
    for i := 0 to |out|
      invariant ifindex in old(kernel.trees) ==>
        && failed == Replay(out, i, tree).failed
        && kernel.trees == old(kernel.trees)[ifindex := Replay(out, i, tree).tree]
      invariant ifindex !in old(kernel.trees) ==>
        kernel.trees == old(kernel.trees) && |failed| == |ReplayRequests(ifindex, out, i)|
      invariant kernel.requests == old(kernel.requests) + ReplayRequests(ifindex, out, i)
    {
      if ShouldSkipQdiscOnRestore(out[i]) {
        continue;
      }
      var obj := StripRuntimeStats(out[i]);
      var ok := kernel.Replace(ifindex, obj);
      if !ok {
        failed := failed + [out[i]];
      }
    }
  }

  method RestoreInterfaceQdiscs(kernel: Kernel, ifindex: nat, qs: seq<Qdisc>)
      returns (failed: seq<Qdisc>, ghost order: seq<nat>, ghost grounded: nat)
    modifies kernel
    ensures RestoreOrder(qs, order, grounded)
    ensures ifindex in old(kernel.trees) ==>
      var run := Replay(Picked(qs, order), |qs|, old(kernel.trees)[ifindex]);
      failed == run.failed && kernel.trees == old(kernel.trees)[ifindex := run.tree]
    ensures ifindex !in old(kernel.trees) ==>
      kernel.trees == old(kernel.trees) && |failed| == |ReplayRequests(ifindex, Picked(qs, order), |qs|)|
    ensures kernel.requests == old(kernel.requests) + ReplayRequests(ifindex, Picked(qs, order), |qs|)
  {
    hide Replay, ReplayRequests, RestoreOrder, Picked;
    var out;
    ghost var passes;
    out, order, grounded, passes := OrderQdiscsForRestore(qs);
    OrderFacts(qs, order, grounded);
    failed := ReplaceAll(kernel, ifindex, out);
  }

  // When replay never misses a parent

  predicate Skipped(qs: seq<Qdisc>, i: nat)
    requires i < |qs|
  {
    !Wanted(qs[i])
  }

  /** The parent is live from the start, or saved and not skipped. */
  ghost predicate Supplied(qs: seq<Qdisc>, tree: Tree, i: nat)
    requires i < |qs|
  {
    HasMajor(tree, HandleMajor(qs[i].parent)) || ParentReplaced(qs, i)
  }

  ghost predicate ParentReplaced(qs: seq<Qdisc>, i: nat)
    requires i < |qs|
  {
    ParentOf(qs, i).Some? && !Skipped(qs, ParentOf(qs, i).value)
  }

  /** Every qdisc to be replaced is grounded and supplied; a root to be replaced is alone
      and above all the others. */
  ghost predicate Replayable(qs: seq<Qdisc>, tree: Tree) {
    && (forall i :: 0 <= i < |qs| && !Skipped(qs, i) && !AtRoot(qs[i].parent) ==> Grounded(qs, i) && Supplied(qs, tree, i))
    && (forall r, i :: 0 <= r < |qs| && 0 <= i < |qs| && r != i && !Skipped(qs, r) && AtRoot(qs[r].parent) && !Skipped(qs, i)
          ==> !AtRoot(qs[i].parent) && ParentReplaced(qs, i))
  }

  /** A root to be replaced comes before everything else that is. */
  lemma {:induction false} RootComesFirst(qs: seq<Qdisc>, order: seq<nat>, grounded: nat, tree: Tree, r: nat, k: nat)
    requires RestoreOrder(qs, order, grounded) && Replayable(qs, tree) && k < |order|
    requires r < |qs| && !Skipped(qs, r) && AtRoot(qs[r].parent) && !Skipped(qs, order[k])
    ensures r in order[..k+1]
    decreases k
  {
    if order[k] != r {
      assert ParentReplaced(qs, order[k]);
      var j := EarlierParent(qs, order, grounded, k);
      RootComesFirst(qs, order, grounded, tree, r, j);
      assert order[..j+1] <= order[..k+1];
    } else {
      assert order[..k+1][k] == r;
    }
  }

  lemma EarlierParent(qs: seq<Qdisc>, order: seq<nat>, grounded: nat, k: nat) returns (j: nat)
    requires RestoreOrder(qs, order, grounded) && k < |order| && Grounded(qs, order[k]) && ParentOf(qs, order[k]).Some?
    ensures j < k && order[j] == ParentOf(qs, order[k]).value
  {
    assert order[..grounded][k] == order[k] && order[..grounded][..k] == order[..k];
    assert ParentOf(qs, order[k]).value in order[..k];
    j :| 0 <= j < k && order[..k][j] == ParentOf(qs, order[k]).value;
  }

  ghost predicate NoRootReplaced(qs: seq<Qdisc>) {
    forall r :: 0 <= r < |qs| && AtRoot(qs[r].parent) ==> Skipped(qs, r)
  }

  ghost predicate Keeps(a: Tree, b: Tree) {
    forall m :: HasMajor(a, m) ==> HasMajor(b, m)
  }

  lemma MemberHasMajor(tree: Tree, q: Qdisc)
    requires q in tree
    ensures HasMajor(tree, HandleMajor(q.handle))
  {
  }

  /** The state of the replay after `n` qdiscs, when nothing has failed. */
  ghost predicate Replaying(qs: seq<Qdisc>, order: seq<nat>, n: nat, tree: Tree, run: Run)
    requires InRange(order, |qs|) && n <= |order|
  {
    && run.failed == []
    && (forall k :: 0 <= k < n && !Skipped(qs, order[k]) ==> qs[order[k]].(stats := false) in run.tree)
    && (NoRootReplaced(qs) ==> Keeps(tree, run.tree))
  }

  lemma AddingKeeps(tree: Tree, a: Tree, q: Qdisc)
    requires Keeps(tree, a)
    ensures Keeps(tree, a + [q])
  {
    forall m | HasMajor(tree, m)
      ensures HasMajor(a + [q], m)
    {
      var k :| 0 <= k < |a| && HandleMajor(a[k].handle) == m;
      assert (a + [q])[k] == a[k];
    }
  }

  lemma OnlySkippedBeforeRoot(qs: seq<Qdisc>, order: seq<nat>, grounded: nat, n: nat, tree: Tree)
    requires RestoreOrder(qs, order, grounded) && Replayable(qs, tree) && n < |qs|
    requires !Skipped(qs, order[n]) && AtRoot(qs[order[n]].parent)
    ensures forall k :: 0 <= k < n ==> Skipped(qs, order[k])
  {
    forall k | 0 <= k < n
      ensures Skipped(qs, order[k])
    {
      if !Skipped(qs, order[k]) {
        RootComesFirst(qs, order, grounded, tree, order[n], k);
      }
    }
  }

  lemma ParentIsLive(qs: seq<Qdisc>, order: seq<nat>, grounded: nat, n: nat, tree: Tree, run: Run)
    requires RestoreOrder(qs, order, grounded) && Replayable(qs, tree) && n < |qs|
    requires Replaying(qs, order, n, tree, run) && !Skipped(qs, order[n]) && !AtRoot(qs[order[n]].parent)
    ensures HasMajor(run.tree, HandleMajor(qs[order[n]].parent))
  {
    if ParentReplaced(qs, order[n]) {
      var j := EarlierParent(qs, order, grounded, n);
      MemberHasMajor(run.tree, qs[order[j]].(stats := false));
    }
  }

  /** The replaced root is first of all: nothing before it was to be replaced. */
  lemma RootStep(qs: seq<Qdisc>, order: seq<nat>, n: nat, tree: Tree, run: Run)
    requires InRange(order, |qs|) && n < |order| && Replaying(qs, order, n, tree, run)
    requires !Skipped(qs, order[n]) && AtRoot(qs[order[n]].parent)
    requires forall k :: 0 <= k < n ==> Skipped(qs, order[k])
    ensures var q := qs[order[n]].(stats := false);
      ReplaceQdisc(run.tree, q) == Done(HookQdiscs(run.tree) + [q])
      && Replaying(qs, order, n + 1, tree, Run(HookQdiscs(run.tree) + [q], []))
  {
    hide Keeps, HookQdiscs, Wanted;
    var q := qs[order[n]].(stats := false);
    assert !NoRootReplaced(qs);
    LastIsMember(HookQdiscs(run.tree), q);
  }

  lemma LastIsMember(tree: Tree, q: Qdisc)
    ensures q in tree + [q] && forall x :: x in tree ==> x in tree + [q]
  {
  }

  /** Any other one is added under its live parent. */
  lemma ChildStep(qs: seq<Qdisc>, order: seq<nat>, n: nat, tree: Tree, run: Run)
    requires InRange(order, |qs|) && n < |order| && Replaying(qs, order, n, tree, run)
    requires !Skipped(qs, order[n]) && !AtRoot(qs[order[n]].parent) && HasMajor(run.tree, HandleMajor(qs[order[n]].parent))
    ensures var q := qs[order[n]].(stats := false);
      ReplaceQdisc(run.tree, q) == Done(run.tree + [q])
      && Replaying(qs, order, n + 1, tree, Run(run.tree + [q], []))
  {
    var q := qs[order[n]].(stats := false);
    hide Keeps, HasMajor, NoRootReplaced;
    LastIsMember(run.tree, q);
    if NoRootReplaced(qs) { AddingKeeps(tree, run.tree, q); }
  }

  lemma ReplayStep(qs: seq<Qdisc>, order: seq<nat>, grounded: nat, n: nat, tree: Tree, run: Run)
    requires RestoreOrder(qs, order, grounded) && Replayable(qs, tree) && n < |qs|
    requires Replaying(qs, order, n, tree, run) && !Skipped(qs, order[n])
    ensures var next := ReplaceQdisc(run.tree, qs[order[n]].(stats := false));
      next.Done? && Replaying(qs, order, n + 1, tree, Run(next.tree, []))
  {
    OrderFacts(qs, order, grounded);
    hide RestoreOrder, Replayable, Replaying, Skipped, AtRoot, ReplaceQdisc, HasMajor;
    if AtRoot(qs[order[n]].parent) {
      OnlySkippedBeforeRoot(qs, order, grounded, n, tree);
      RootStep(qs, order, n, tree, run);
    } else {
      ParentIsLive(qs, order, grounded, n, tree, run);
      ChildStep(qs, order, n, tree, run);
    }
  }

  lemma ReplayStarts(qs: seq<Qdisc>, order: seq<nat>, tree: Tree)
    requires InRange(order, |qs|)
    ensures Replaying(qs, order, 0, tree, Replay(Picked(qs, order), 0, tree))
  {
  }

  lemma SkipStep(qs: seq<Qdisc>, order: seq<nat>, n: nat, tree: Tree, run: Run)
    requires InRange(order, |qs|) && n < |order| && Replaying(qs, order, n, tree, run) && Skipped(qs, order[n])
    ensures Replaying(qs, order, n + 1, tree, run)
  {
  }

  lemma OrderFacts(qs: seq<Qdisc>, order: seq<nat>, grounded: nat)
    requires RestoreOrder(qs, order, grounded)
    ensures |order| == |qs| && InRange(order, |qs|)
    ensures forall i :: 0 <= i < |qs| ==> i in order
  {
  }

  lemma ReplayNext(qs: seq<Qdisc>, order: seq<nat>, n: nat, tree: Tree)
    requires InRange(order, |qs|) && n < |order|
    ensures var before, q := Replay(Picked(qs, order), n, tree), qs[order[n]];
      Replay(Picked(qs, order), n + 1, tree) == if Skipped(qs, order[n]) then before
        else match ReplaceQdisc(before.tree, q.(stats := false))
          case Done(next) => Run(next, before.failed)
          case Failed => Run(before.tree, before.failed + [q])
  {
  }

  lemma NothingFailedYet(qs: seq<Qdisc>, order: seq<nat>, n: nat, tree: Tree, run: Run)
    requires InRange(order, |qs|) && n <= |order| && Replaying(qs, order, n, tree, run)
    ensures run.failed == []
  {
  }

  /** No replaced qdisc misses its parent, and all of them end up in the tree. */
  lemma {:induction false} ReplayNeverMissesParent(qs: seq<Qdisc>, order: seq<nat>, grounded: nat, n: nat, tree: Tree)
    requires RestoreOrder(qs, order, grounded) && Replayable(qs, tree) && n <= |qs|
    ensures Replaying(qs, order, n, tree, Replay(Picked(qs, order), n, tree))
    decreases n
  {
    hide RestoreOrder, Replayable, ReplaceQdisc, Replaying, Replay, Picked, ShouldSkipQdiscOnRestore;
    OrderFacts(qs, order, grounded);
    if n == 0 {
      ReplayStarts(qs, order, tree);
    } else {
      ReplayNext(qs, order, n - 1, tree);
      ReplayNeverMissesParent(qs, order, grounded, n - 1, tree);
      var run := Replay(Picked(qs, order), n - 1, tree);
      NothingFailedYet(qs, order, n - 1, tree, run);
      if Skipped(qs, order[n-1]) {
        SkipStep(qs, order, n - 1, tree, run);
      } else {
        ReplayStep(qs, order, grounded, n - 1, tree, run);
      }
    }
  }

  // Saved trees and the root the kernel re-attached

  /** A snapshot of one tree with root `r`: distinct handles with minor 0, and above every
      other qdisc to be restored a saved parent class, whose qdisc is the root or is
      restored too. */
  ghost predicate SavedTree(qs: seq<Qdisc>, r: nat) {
    && r < |qs| && AtRoot(qs[r].parent) && (forall i :: 0 <= i < |qs| && i != r ==> !AtRoot(qs[i].parent))
    && (forall i :: 0 <= i < |qs| ==> qs[i].handle % 0x1_0000 == 0) && qs[r].handle != 0xffff0000
    && (forall i, j :: 0 <= i < j < |qs| && qs[i].handle != 0 ==> qs[i].handle != qs[j].handle)
    && (forall i :: 0 <= i < |qs| && i != r && !Skipped(qs, i) ==>
          && qs[i].parent % 0x1_0000 != 0 && Grounded(qs, i)
          && ParentOf(qs, i).Some? && (ParentOf(qs, i).value == r || ParentReplaced(qs, i)))
  }

  /** The kernel has re-attached a root of the saved kind when that is its job, under a major
      no other saved qdisc has. Whatever else is left over in the tree may stay. Major 0xffff
      belongs to the ingress hook. */
  ghost predicate ReAttached(qs: seq<Qdisc>, r: nat, tree: Tree)
    requires r < |qs|
  {
    KernelAttached(qs[r].kind) ==>
      && FindLiveRootMajor(tree, qs[r].kind).Some?
      && FindLiveRootMajor(tree, qs[r].kind).value != 0xffff0000
      && (forall i :: 0 <= i < |qs| && i != r && qs[i].handle != 0 ==>
            HandleMajor(qs[i].handle) != FindLiveRootMajor(tree, qs[r].kind).value)
  }

  /** The live root stayed anonymous although the saved one had a handle, and a child of
      that root has a child of its own to restore, with nothing of the first child's major
      left over in the tree. */
  ghost predicate Orphaned(qs: seq<Qdisc>, r: nat, tree: Tree)
    requires r < |qs|
  {
    && KernelAttached(qs[r].kind) && qs[r].handle != 0 && FindLiveRootMajor(tree, qs[r].kind) == Some(0)
    && exists i :: 0 <= i < |qs| && IsGrandchild(qs, r, i) && !HasMajor(tree, HandleMajor(qs[i].parent))
  }

  ghost predicate IsGrandchild(qs: seq<Qdisc>, r: nat, i: nat)
    requires i < |qs|
  {
    && !Skipped(qs, i) && i != r && ParentOf(qs, i).Some?
    && ParentOf(qs, i).value != r && ParentOf(qs, ParentOf(qs, i).value) == Some(r)
  }

  lemma {:induction false} FoundIsLive(tree: Tree, kind: Kind)
    requires FindLiveRootMajor(tree, kind).Some?
    ensures HasMajor(tree, FindLiveRootMajor(tree, kind).value)
    ensures HandleMajor(FindLiveRootMajor(tree, kind).value) == FindLiveRootMajor(tree, kind).value
  {
    if AtRoot(tree[0].parent) && tree[0].kind == kind {
    } else {
      FoundIsLive(tree[1..], kind);
      var k :| 0 <= k < |tree[1..]| && HandleMajor(tree[1..][k].handle) == FindLiveRootMajor(tree, kind).value;
      assert tree[k + 1] == tree[1..][k];
    }
  }

  /** Only the one saved root can be rewritten. */
  lemma {:induction false} RewritesOneRoot(qs: seq<Qdisc>, n: nat, r: nat, tree: Tree)
    requires r < |qs| && n <= |qs| && forall i :: 0 <= i < |qs| ==> (AtRoot(qs[i].parent) <==> i == r)
    ensures var live := FindLiveRootMajor(tree, qs[r].kind);
      RewriteMap(qs[..n], tree) ==
        if n > r && KernelAttached(qs[r].kind) && live.Some? && live.value != HandleMajor(qs[r].handle)
        then map[HandleMajor(qs[r].handle) := live.value] else map[]
    decreases n
  {
    if n > 0 {
      RewritesOneRoot(qs, n - 1, r, tree);
      assert qs[..n][..n-1] == qs[..n-1];
    }
  }

  lemma {:induction false} SameHandlesSameIndex(a: seq<Qdisc>, b: seq<Qdisc>)
    requires |a| == |b| && forall i :: 0 <= i < |a| ==> a[i].handle == b[i].handle
    ensures Index(a) == Index(b)
  {
    if a != [] { SameHandlesSameIndex(a[..|a|-1], b[..|b|-1]); }
  }

  /** The position of a saved handle. */
  lemma IndexOfHandle(qs: seq<Qdisc>, r: nat, i: nat)
    requires SavedTree(qs, r) && i < |qs| && qs[i].handle != 0
    ensures HandleMajor(qs[i].handle) == qs[i].handle != 0
    ensures HandleMajor(qs[i].handle) in Index(qs) && Index(qs)[HandleMajor(qs[i].handle)] == i
  {
    IndexInRange(qs);
  }

  /** What re-anchoring does to one qdisc of a saved tree. */
  lemma AnchoredQdisc(qs: seq<Qdisc>, r: nat, tree: Tree, i: nat)
    requires SavedTree(qs, r) && ReAttached(qs, r, tree) && i < |qs|
    ensures var live, q := FindLiveRootMajor(tree, qs[r].kind), ReAnchored(qs, tree)[i];
      var major := HandleMajor(qs[r].handle);
      if i != r && KernelAttached(qs[r].kind) && live.value != major && HandleMajor(qs[i].parent) == major
      then q == qs[i].(parent := WithMajor(live.value, qs[i].parent)) && HandleMajor(q.parent) == live.value
      else q == qs[i]
  {
    hide HandleMajor, WithMajor, Grounded, HasMajor;
    RewritesOneRoot(qs, |qs|, r, tree);
    assert qs[..|qs|] == qs;
    if KernelAttached(qs[r].kind) {
      FoundIsLive(tree, qs[r].kind);
      MajorReplaced(FindLiveRootMajor(tree, qs[r].kind).value, qs[i].parent);
    }
  }

  lemma MajorReplaced(major: Handle, h: Handle)
    ensures HandleMajor(WithMajor(major, h)) == HandleMajor(major)
    ensures HandleMajor(HandleMajor(major)) == HandleMajor(major)
  {
  }

  /** Re-anchoring only ever cuts a qdisc loose from its saved parent. */
  lemma AnchoredParent(qs: seq<Qdisc>, r: nat, tree: Tree, i: nat)
    requires SavedTree(qs, r) && ReAttached(qs, r, tree) && i < |qs|
    ensures ParentOf(ReAnchored(qs, tree), i) in {None, ParentOf(qs, i)}
    ensures ReAnchored(qs, tree)[i] == qs[i] ==> ParentOf(ReAnchored(qs, tree), i) == ParentOf(qs, i)
    ensures ReAnchored(qs, tree)[i] != qs[i] ==> ParentOf(ReAnchored(qs, tree), i) == None
  {
    var a := ReAnchored(qs, tree);
    SameHandlesSameIndex(a, qs);
    AnchoredQdisc(qs, r, tree, i);
    IndexInRange(qs);
    if a[i] != qs[i] {
      var live := FindLiveRootMajor(tree, qs[r].kind).value;
      if live in Index(qs) {
        var p := Index(qs)[live];
        IndexOfHandle(qs, r, p);
      }
    }
  }

  lemma {:induction false} AnchoredGrounded(qs: seq<Qdisc>, r: nat, tree: Tree, i: nat, depth: nat)
    requires SavedTree(qs, r) && ReAttached(qs, r, tree) && i < |qs| && GroundedWithin(qs, i, depth)
    ensures GroundedWithin(ReAnchored(qs, tree), i, depth)
    decreases depth
  {
    AnchoredParent(qs, r, tree, i);
    if ParentOf(qs, i).Some? { AnchoredGrounded(qs, r, tree, ParentOf(qs, i).value, depth - 1); }
  }

  /** In the anchored tree everything to be replaced is supplied, unless a grandchild of
      an anonymous root is orphaned. */
  lemma AnchoredSupplied(qs: seq<Qdisc>, r: nat, tree: Tree, i: nat)
    requires SavedTree(qs, r) && ReAttached(qs, r, tree) && !Orphaned(qs, r, tree)
    requires i < |qs| && i != r && !Skipped(ReAnchored(qs, tree), i)
    ensures !AtRoot(ReAnchored(qs, tree)[i].parent) && Grounded(ReAnchored(qs, tree), i)
    ensures Supplied(ReAnchored(qs, tree), tree, i)
    ensures !KernelAttached(qs[r].kind) ==> ParentReplaced(ReAnchored(qs, tree), i)
  {
    var a := ReAnchored(qs, tree);
    AnchoredQdisc(qs, r, tree, i);
    AnchoredQdisc(qs, r, tree, r);
    AnchoredParent(qs, r, tree, i);
    if KernelAttached(qs[r].kind) { FoundIsLive(tree, qs[r].kind); }
    if a[i] != qs[i] {
      GroundedByParent(a, i);
    } else {
      var depth: nat :| GroundedWithin(qs, i, depth);
      AnchoredGrounded(qs, r, tree, i, depth);
      var p := ParentOf(qs, i).value;
      if p != r {
        AnchoredQdisc(qs, r, tree, p);
        assert ParentOf(qs, p) == Some(r) ==> IsGrandchild(qs, r, i);
        if a[p] != qs[p] { ChildOfRoot(qs, r, tree, p); }
      }
    }
  }

  /** A rewritten qdisc that was to be restored is a child of the saved root; it is skipped
      only when the live root is anonymous, and then its own children are orphaned. */
  lemma ChildOfRoot(qs: seq<Qdisc>, r: nat, tree: Tree, p: nat)
    requires SavedTree(qs, r) && ReAttached(qs, r, tree) && p < |qs| && !Skipped(qs, p)
    requires ReAnchored(qs, tree)[p] != qs[p]
    ensures ParentOf(qs, p) == Some(r) && qs[r].handle != 0 && KernelAttached(qs[r].kind)
    ensures Skipped(ReAnchored(qs, tree), p) <==> FindLiveRootMajor(tree, qs[r].kind) == Some(0)
  {
    AnchoredQdisc(qs, r, tree, p);
    AnchoredQdisc(qs, r, tree, r);
    if qs[r].handle != 0 { IndexOfHandle(qs, r, r); }
  }

  lemma AnchoredIsReplayable(qs: seq<Qdisc>, r: nat, tree: Tree)
    requires SavedTree(qs, r) && ReAttached(qs, r, tree) && !Orphaned(qs, r, tree)
    ensures Replayable(ReAnchored(qs, tree), tree)
  {
    var a := ReAnchored(qs, tree);
    AnchoredQdisc(qs, r, tree, r);
    forall i | 0 <= i < |qs| && i != r && !Skipped(a, i)
      ensures !AtRoot(a[i].parent) && Grounded(a, i) && Supplied(a, tree, i)
      ensures !KernelAttached(qs[r].kind) ==> ParentReplaced(a, i)
    {
      AnchoredSupplied(qs, r, tree, i);
    }
  }

  lemma MajorNotAdded(tree: Tree, q: Qdisc, major: Handle)
    requires !HasMajor(tree, major) && HandleMajor(q.handle) != major
    ensures match ReplaceQdisc(tree, q) case Failed => true case Done(next) => !HasMajor(next, major)
  {
    forall k | 0 <= k < |tree + [q]|
      ensures HandleMajor((tree + [q])[k].handle) != major
    {
    }
    var hooks := HookQdiscs(tree);
    forall k | 0 <= k < |hooks|
      ensures HandleMajor(hooks[k].handle) != major
    {
      assert hooks[k] in hooks;
      assert hooks[k] in tree;
    }
  }

  /** A major nobody brings stays missing. */
  lemma {:induction false} MajorStaysMissing(out: seq<Qdisc>, n: nat, tree: Tree, major: Handle)
    requires n <= |out| && !HasMajor(tree, major)
    requires forall k :: 0 <= k < n && Wanted(out[k]) ==> HandleMajor(out[k].handle) != major
    ensures !HasMajor(Replay(out, n, tree).tree, major)
    decreases n
  {
    if n > 0 {
      hide ReplaceQdisc, HasMajor;
      assert ShouldSkipQdiscOnRestore(out[n-1]) <==> !Wanted(out[n-1]);
      MajorStaysMissing(out, n - 1, tree, major);
      if !ShouldSkipQdiscOnRestore(out[n-1]) {
        MajorNotAdded(Replay(out, n - 1, tree).tree, StripRuntimeStats(out[n-1]), major);
      }
    }
  }

  lemma {:induction false} FailuresStay(out: seq<Qdisc>, n: nat, m: nat, tree: Tree)
    requires n <= m <= |out| && Replay(out, n, tree).failed != []
    ensures Replay(out, m, tree).failed != []
    decreases m
  {
    hide ReplaceQdisc, ShouldSkipQdiscOnRestore;
    if n < m { FailuresStay(out, n, m - 1, tree); }
  }

  lemma MissingParentFails(tree: Tree, q: Qdisc)
    requires !AtRoot(q.parent) && !HasMajor(tree, HandleMajor(q.parent))
    ensures ReplaceQdisc(tree, q.(stats := false)) == Failed
  {
  }

  lemma OrphanFails(qs: seq<Qdisc>, r: nat, tree: Tree, order: seq<nat>, grounded: nat)
    requires SavedTree(qs, r) && ReAttached(qs, r, tree) && Orphaned(qs, r, tree)
    requires RestoreOrder(ReAnchored(qs, tree), order, grounded)
    ensures Replay(Picked(ReAnchored(qs, tree), order), |qs|, tree).failed != []
  {
    var i :| 0 <= i < |qs| && IsGrandchild(qs, r, i) && !HasMajor(tree, HandleMajor(qs[i].parent));
    OrphanFacts(qs, r, tree, i, ParentOf(qs, i).value);
    OrderFacts(ReAnchored(qs, tree), order, grounded);
    MissingFails(ReAnchored(qs, tree), order, tree, i);
  }

  /** A qdisc whose parent's major neither the tree nor any replaced qdisc brings fails. */
  lemma MissingFails(qs: seq<Qdisc>, order: seq<nat>, tree: Tree, i: nat)
    requires InRange(order, |qs|) && |order| == |qs| && i in order && i < |qs|
    requires !Skipped(qs, i) && !AtRoot(qs[i].parent) && !HasMajor(tree, HandleMajor(qs[i].parent))
    requires forall x :: 0 <= x < |qs| && !Skipped(qs, x) ==> HandleMajor(qs[x].handle) != HandleMajor(qs[i].parent)
    ensures Replay(Picked(qs, order), |qs|, tree).failed != []
  {
    hide HandleMajor, HasMajor, Replay, ReplaceQdisc, ShouldSkipQdiscOnRestore, IsRootQdisc, AtRoot;
    var out := Picked(qs, order);
    var k :| 0 <= k < |order| && order[k] == i;
    forall x | 0 <= x < |out| && Wanted(out[x])
      ensures HandleMajor(out[x].handle) != HandleMajor(qs[i].parent)
    {
      assert !Skipped(qs, order[x]);
    }
    MajorStaysMissing(out, k, tree, HandleMajor(qs[i].parent));
    MissingParentFails(Replay(out, k, tree).tree, qs[i]);
    ReplayNext(qs, order, k, tree);
    FailuresStay(out, k + 1, |qs|, tree);
  }

  lemma OrphanFacts(qs: seq<Qdisc>, r: nat, tree: Tree, i: nat, p: nat)
    requires SavedTree(qs, r) && ReAttached(qs, r, tree) && Orphaned(qs, r, tree)
    requires i < |qs| && IsGrandchild(qs, r, i) && p == ParentOf(qs, i).value
    requires !HasMajor(tree, HandleMajor(qs[i].parent))
    ensures var a := ReAnchored(qs, tree);
      && !Skipped(a, i) && !AtRoot(a[i].parent) && !HasMajor(tree, HandleMajor(a[i].parent))
      && (forall x :: 0 <= x < |qs| && !Skipped(a, x) ==> HandleMajor(a[x].handle) != HandleMajor(a[i].parent))
  {
    var a := ReAnchored(qs, tree);
    IndexOfHandle(qs, r, r);
    IndexOfHandle(qs, r, p);
    AnchoredQdisc(qs, r, tree, i);
    AnchoredQdisc(qs, r, tree, p);
    assert a[i] == qs[i] && Skipped(a, p);
    forall x | 0 <= x < |qs| && !Skipped(a, x)
      ensures HandleMajor(a[x].handle) != HandleMajor(a[i].parent)
    {
      AnchoredQdisc(qs, r, tree, x);
      if qs[x].handle != 0 { IndexOfHandle(qs, r, x); }
    }
  }

  /** Replaying a saved tree over the tree the kernel re-attached misses no parent, exactly
      unless a grandchild is orphaned; and then every qdisc not skipped is in the tree. */
  lemma ReplayIsCleanIffNotOrphaned(qs: seq<Qdisc>, r: nat, tree: Tree, order: seq<nat>, grounded: nat)
    requires SavedTree(qs, r) && ReAttached(qs, r, tree)
    requires RestoreOrder(ReAnchored(qs, tree), order, grounded)
    ensures var run := Replay(Picked(ReAnchored(qs, tree), order), |qs|, tree);
      && (run.failed == [] <==> !Orphaned(qs, r, tree))
      && (!Orphaned(qs, r, tree) ==> forall i :: 0 <= i < |qs| && !Skipped(ReAnchored(qs, tree), i) ==>
            ReAnchored(qs, tree)[i].(stats := false) in run.tree)
  {
    hide Orphaned, Replayable, ReAttached, ReAnchored, ShouldSkipQdiscOnRestore;
    var a := ReAnchored(qs, tree);
    if Orphaned(qs, r, tree) {
      OrphanFails(qs, r, tree, order, grounded);
    } else {
      AnchoredIsReplayable(qs, r, tree);
      ReplayNeverMissesParent(a, order, grounded, |qs|, tree);
      AllReplaced(a, order, grounded, tree, Replay(Picked(a, order), |qs|, tree));
    }
  }

  lemma AllReplaced(qs: seq<Qdisc>, order: seq<nat>, grounded: nat, tree: Tree, run: Run)
    requires RestoreOrder(qs, order, grounded) && Replaying(qs, order, |qs|, tree, run)
    ensures forall i :: 0 <= i < |qs| && !Skipped(qs, i) ==> qs[i].(stats := false) in run.tree
  {
    forall i | 0 <= i < |qs| && !Skipped(qs, i)
      ensures qs[i].(stats := false) in run.tree
    {
      assert i in order;
      var k :| 0 <= k < |order| && order[k] == i;
    }
  }

  // The whole restore

  predicate ShouldClaimRoot(q: Qdisc) {
    IsRootQdisc(q) && IsKernelAutoManaged(q.kind) && q.handle != 0
  }

  /** What claiming may have done to the tree of one interface. */
  ghost predicate AfterClaim(before: Tree, after: Tree, s: InterfaceSnapshot, r: nat)
    requires r < |s.qdiscs|
  {
    || after == before
    || (ShouldClaimRoot(s.qdiscs[r]) && after == ClaimedTree(before, s.ifindex, s.qdiscs[r].handle, s.qdiscs[r].kind))
  }

  function ClaimRequests(s: InterfaceSnapshot, n: nat): seq<Request>
    requires n <= |s.qdiscs|
  {
    if n == 0 then []
    else
      var q := s.qdiscs[n-1];
      ClaimRequests(s, n - 1) + if ShouldClaimRoot(q) then [ClaimRequest(s.ifindex, q.handle, q.kind)] else []
  }

  /** Exactly the saved roots with a handle whose kind the kernel attaches are claimed, each
      under its own handle and kind. */
  lemma {:induction false} ClaimsAreForAttachedRoots(s: InterfaceSnapshot, n: nat, r: Request)
    requires n <= |s.qdiscs|
    ensures r in ClaimRequests(s, n) <==> exists k :: 0 <= k < n && IsClaimOf(r, s.ifindex, s.qdiscs[k])
  {
    if n > 0 { ClaimsAreForAttachedRoots(s, n - 1, r); }
  }

  ghost predicate IsClaimOf(r: Request, ifindex: nat, q: Qdisc) {
    r == ClaimRequest(ifindex, q.handle, q.kind) && AtRoot(q.parent) && KernelAttached(q.kind) && q.handle != 0
  }

  function AllClaimRequests(snap: seq<InterfaceSnapshot>, n: nat): seq<Request>
    requires n <= |snap|
  {
    if n == 0 then [] else AllClaimRequests(snap, n - 1) + ClaimRequests(snap[n-1], |snap[n-1].qdiscs|)
  }

  method ClaimInterfaceRoots(kernel: Kernel, s: InterfaceSnapshot)
    modifies kernel
    ensures kernel.requests == old(kernel.requests) + ClaimRequests(s, |s.qdiscs|)
    ensures kernel.trees.Keys == old(kernel.trees.Keys)
    ensures forall j :: j in kernel.trees && j != s.ifindex ==> kernel.trees[j] == old(kernel.trees)[j]
    ensures forall r: nat :: SavedTree(s.qdiscs, r) ==>
      AfterClaim(TreeOf(old(kernel.trees), s.ifindex), TreeOf(kernel.trees, s.ifindex), s, r)
  {
    ghost var before := TreeOf(kernel.trees, s.ifindex);
    for i := 0 to |s.qdiscs|
      invariant kernel.requests == old(kernel.requests) + ClaimRequests(s, i)
      invariant kernel.trees.Keys == old(kernel.trees.Keys)
      invariant forall j :: j in kernel.trees && j != s.ifindex ==> kernel.trees[j] == old(kernel.trees)[j]
      invariant forall r: nat :: SavedTree(s.qdiscs, r) ==>
        if i <= r then TreeOf(kernel.trees, s.ifindex) == before
        else AfterClaim(before, TreeOf(kernel.trees, s.ifindex), s, r)
    {
      if ShouldClaimRoot(s.qdiscs[i]) {
        var ok := kernel.ClaimAutoManagedRoot(s.ifindex, s.qdiscs[i].handle, s.qdiscs[i].kind);
      }
    }
  }

  /** A successful claim keeps the tree ready for replay, and orphans nobody. */
  lemma ClaimKeepsReady(s: InterfaceSnapshot, r: nat, before: Tree, after: Tree)
    requires SavedTree(s.qdiscs, r) && ReAttached(s.qdiscs, r, before) && AfterClaim(before, after, s, r)
    ensures ReAttached(s.qdiscs, r, after)
    ensures after != before ==> !Orphaned(s.qdiscs, r, after)
  {
    var qs := s.qdiscs;
    if after != before {
      var hooks := HookQdiscs(before);
      var root := Qdisc(s.ifindex, qs[r].kind, qs[r].handle, TC_H_ROOT, "", false);
      assert forall q :: q in hooks ==> q in before && !AtRoot(q.parent);
      FindsClaimed(hooks, root);
      IndexOfHandle(qs, r, r);
      forall i | 0 <= i < |qs| && i != r && qs[i].handle != 0
        ensures HandleMajor(qs[i].handle) != HandleMajor(qs[r].handle)
      {
        IndexOfHandle(qs, r, i);
      }
    }
  }

  lemma {:induction false} FindsClaimed(hooks: Tree, root: Qdisc)
    requires AtRoot(root.parent) && forall q :: q in hooks ==> !AtRoot(q.parent)
    ensures FindLiveRootMajor(hooks + [root], root.kind) == Some(HandleMajor(root.handle))
  {
    if hooks != [] {
      FindsClaimed(hooks[1..], root);
      assert (hooks + [root])[1..] == hooks[1..] + [root];
    }
  }

  /** The snapshots of distinct interfaces, each a saved tree with the given root, and
      each re-attached by the kernel. */
  ghost predicate Ready(snap: seq<InterfaceSnapshot>, roots: seq<nat>, trees: map<nat, Tree>) {
    && |roots| == |snap|
    && (forall k :: 0 <= k < |snap| ==> snap[k].ifindex in trees)
    && (forall k :: 0 <= k < |snap| ==>
          SavedTree(snap[k].qdiscs, roots[k]) && ReAttached(snap[k].qdiscs, roots[k], trees[snap[k].ifindex]))
    && (forall k, l :: 0 <= k < l < |snap| ==> snap[k].ifindex != snap[l].ifindex)
  }

  ghost predicate Outside(snap: seq<InterfaceSnapshot>, ifindex: nat) {
    forall k :: 0 <= k < |snap| ==> snap[k].ifindex != ifindex
  }

  method ClaimAutoManagedRootHandles(kernel: Kernel, snap: seq<InterfaceSnapshot>, ghost roots: seq<nat>)
    modifies kernel
    ensures kernel.requests == old(kernel.requests) + AllClaimRequests(snap, |snap|)
    ensures kernel.trees.Keys == old(kernel.trees.Keys)
    ensures forall j :: j in kernel.trees && Outside(snap, j) ==> kernel.trees[j] == old(kernel.trees)[j]
    ensures Ready(snap, roots, old(kernel.trees)) ==> Ready(snap, roots, kernel.trees)
    ensures Ready(snap, roots, old(kernel.trees)) ==> forall k :: 0 <= k < |snap| ==>
      AfterClaim(old(kernel.trees)[snap[k].ifindex], kernel.trees[snap[k].ifindex], snap[k], roots[k])
  {
    hide SavedTree, ReAttached, AfterClaim, ClaimRequests;
    ghost var before, ready := kernel.trees, Ready(snap, roots, kernel.trees);
    if ready { RootsInRange(snap, roots, kernel.trees); }
    for i := 0 to |snap|
      invariant kernel.trees.Keys == before.Keys
      invariant kernel.requests == old(kernel.requests) + AllClaimRequests(snap, i)
      invariant forall j :: j in before && Outside(snap, j) ==> kernel.trees[j] == before[j]
      invariant ready ==> forall k :: i <= k < |snap| ==> kernel.trees[snap[k].ifindex] == before[snap[k].ifindex]
      invariant ready ==> forall k :: 0 <= k < i ==>
        AfterClaim(before[snap[k].ifindex], kernel.trees[snap[k].ifindex], snap[k], roots[k])
    {
      ClaimInterfaceRoots(kernel, snap[i]);
    }
    if ready { ClaimsKeepReady(snap, roots, before, kernel.trees); }
  }

  lemma ClaimsKeepReady(snap: seq<InterfaceSnapshot>, roots: seq<nat>, before: map<nat, Tree>, after: map<nat, Tree>)
    requires Ready(snap, roots, before) && before.Keys == after.Keys
    requires forall k :: 0 <= k < |snap| ==>
      roots[k] < |snap[k].qdiscs| && AfterClaim(before[snap[k].ifindex], after[snap[k].ifindex], snap[k], roots[k])
    ensures Ready(snap, roots, after)
  {
    hide SavedTree, ReAttached, AfterClaim;
    forall k | 0 <= k < |snap|
      ensures ReAttached(snap[k].qdiscs, roots[k], after[snap[k].ifindex])
    {
      ClaimKeepsReady(snap[k], roots[k], before[snap[k].ifindex], after[snap[k].ifindex]);
    }
  }

  lemma RootsInRange(snap: seq<InterfaceSnapshot>, roots: seq<nat>, trees: map<nat, Tree>)
    requires Ready(snap, roots, trees)
    ensures forall k :: 0 <= k < |snap| ==> roots[k] < |snap[k].qdiscs|
  {
  }

  /** Every saved qdisc that is not skipped is in the tree, under its anchored parent. */
  ghost predicate Restored(s: InterfaceSnapshot, reread: Tree, tree: Tree) {
    var anchored := ReAnchored(s.qdiscs, reread);
    forall i :: 0 <= i < |anchored| && Wanted(anchored[i]) ==> anchored[i].(stats := false) in tree
  }

  ghost predicate OrphanedAt(snap: seq<InterfaceSnapshot>, roots: seq<nat>, trees: map<nat, Tree>, k: nat) {
    && k < |snap| && k < |roots| && roots[k] < |snap[k].qdiscs|
    && Orphaned(snap[k].qdiscs, roots[k], TreeOf(trees, snap[k].ifindex))
  }

  ghost predicate RestoredAt(snap: seq<InterfaceSnapshot>, reread: map<nat, Tree>, trees: map<nat, Tree>, k: nat) {
    k < |snap| && Restored(snap[k], TreeOf(reread, snap[k].ifindex), TreeOf(trees, snap[k].ifindex))
  }

  /** The first `n` interfaces are done: failures exactly when one is orphaned, and the
      others restored. */
  ghost predicate RestoredUpTo(snap: seq<InterfaceSnapshot>, roots: seq<nat>, reread: map<nat, Tree>,
                               trees: map<nat, Tree>, n: nat, failed: seq<Qdisc>) {
    && (failed == [] <==> forall k :: 0 <= k < n ==> !OrphanedAt(snap, roots, reread, k))
    && (forall k :: 0 <= k < n && !OrphanedAt(snap, roots, reread, k) ==> RestoredAt(snap, reread, trees, k))
  }

  lemma RestoredInSameTree(snap: seq<InterfaceSnapshot>, reread: map<nat, Tree>, trees: map<nat, Tree>,
                           next: map<nat, Tree>, k: nat)
    requires RestoredAt(snap, reread, trees, k) && TreeOf(next, snap[k].ifindex) == TreeOf(trees, snap[k].ifindex)
    ensures RestoredAt(snap, reread, next, k)
  {
  }

  /** Doing one more interface leaves what was done before. */
  lemma OneMoreRestored(snap: seq<InterfaceSnapshot>, roots: seq<nat>, reread: map<nat, Tree>,
                        trees: map<nat, Tree>, next: map<nat, Tree>, n: nat, failed: seq<Qdisc>, more: seq<Qdisc>)
    requires n < |snap| && RestoredUpTo(snap, roots, reread, trees, n, failed)
    requires forall k :: 0 <= k < n ==> TreeOf(next, snap[k].ifindex) == TreeOf(trees, snap[k].ifindex)
    requires more == [] <==> !OrphanedAt(snap, roots, reread, n)
    requires !OrphanedAt(snap, roots, reread, n) ==> RestoredAt(snap, reread, next, n)
    ensures RestoredUpTo(snap, roots, reread, next, n + 1, failed + more)
  {
    hide OrphanedAt, RestoredAt, TreeOf;
    forall k | 0 <= k < n && !OrphanedAt(snap, roots, reread, k)
      ensures RestoredAt(snap, reread, next, k)
    {
      RestoredInSameTree(snap, reread, trees, next, k);
    }
    assert failed + more == [] <==> failed == [] && more == [];
  }

  /** Restoring a snapshot of saved trees over what the kernel re-attached: no replaced qdisc
      meets a missing parent, exactly unless the claim of some interface's root failed, the
      kernel left that root anonymous, and one of its children has a child to restore for which
      no qdisc was left over to hold it. An interface without such an orphan is restored;
      interfaces outside are left alone. */
  method RestoreSnapshot(kernel: Kernel, snap: seq<InterfaceSnapshot>, ghost roots: seq<nat>)
      returns (failed: seq<Qdisc>, ghost reread: map<nat, Tree>)
    modifies kernel
    ensures ProperSince(old(kernel.requests) + AllClaimRequests(snap, |snap|), kernel.requests)
    ensures kernel.trees.Keys == old(kernel.trees.Keys)
    ensures forall j :: j in kernel.trees && Outside(snap, j) ==> kernel.trees[j] == old(kernel.trees)[j]
    ensures Ready(snap, roots, old(kernel.trees)) ==>
      && Ready(snap, roots, reread) && RestoredUpTo(snap, roots, reread, kernel.trees, |snap|, failed)
      && forall k :: 0 <= k < |snap| ==>
        AfterClaim(old(kernel.trees)[snap[k].ifindex], reread[snap[k].ifindex], snap[k], roots[k])
  {
    hide SavedTree, ReAttached, OrphanedAt, RestoredAt, RestoredUpTo, AfterClaim, AllClaimRequests;
    ghost var ready := Ready(snap, roots, kernel.trees);
    if ready { RootsInRange(snap, roots, kernel.trees); }
    ClaimAutoManagedRootHandles(kernel, snap, roots);
    var current := kernel.trees;
    reread := current;
    failed := [];
    NothingRestoredYet(snap, roots, reread);
    for i := 0 to |snap|
      invariant kernel.trees.Keys == current.Keys
      invariant ProperSince(old(kernel.requests) + AllClaimRequests(snap, |snap|), kernel.requests)
      invariant forall j :: j in current && Outside(snap, j) ==> kernel.trees[j] == current[j]
      invariant ready ==> forall k :: i <= k < |snap| ==> kernel.trees[snap[k].ifindex] == current[snap[k].ifindex]
      invariant ready ==> RestoredUpTo(snap, roots, reread, kernel.trees, i, failed)
    {
      ghost var before, asked := kernel.trees, kernel.requests;
      var more := RestoreInterface(kernel, snap, i, current, roots);
      ProperTogether(old(kernel.requests) + AllClaimRequests(snap, |snap|), asked, kernel.requests);
      if ready { OneMoreRestored(snap, roots, reread, before, kernel.trees, i, failed, more); }
      failed := failed + more;
    }
  }

  lemma NothingRestoredYet(snap: seq<InterfaceSnapshot>, roots: seq<nat>, reread: map<nat, Tree>)
    ensures RestoredUpTo(snap, roots, reread, reread, 0, [])
  {
  }

  /** One round of the loop over interfaces. */
  method RestoreInterface(kernel: Kernel, snap: seq<InterfaceSnapshot>, i: nat, current: map<nat, Tree>,
                          ghost roots: seq<nat>) returns (failed: seq<Qdisc>)
    requires i < |snap|
    modifies kernel
    ensures ProperSince(old(kernel.requests), kernel.requests)
    ensures kernel.trees.Keys == old(kernel.trees.Keys)
    ensures forall j :: j in kernel.trees && j != snap[i].ifindex ==> kernel.trees[j] == old(kernel.trees)[j]
    ensures (Ready(snap, roots, current) && snap[i].ifindex in old(kernel.trees)
             && old(kernel.trees)[snap[i].ifindex] == current[snap[i].ifindex]) ==>
      && (failed == [] <==> !OrphanedAt(snap, roots, current, i))
      && (!OrphanedAt(snap, roots, current, i) ==> RestoredAt(snap, current, kernel.trees, i))
  {
    hide ReAttached, Orphaned, Replay, ReAnchored, RestoreOrder, ReplayRequests;
    var s, tree := snap[i], TreeOf(current, snap[i].ifindex);
    var anchored := ReAnchorAutoManagedParents(s.qdiscs, tree);
    ghost var order, grounded;
    failed, order, grounded := RestoreInterfaceQdiscs(kernel, s.ifindex, anchored);
    OrderFacts(anchored, order, grounded);
    AllProper(old(kernel.requests), s.ifindex, Picked(anchored, order));
    if Ready(snap, roots, current) {
      ReplayIsCleanIffNotOrphaned(s.qdiscs, roots[i], tree, order, grounded);
    }
  }

  lemma AllProper(before: seq<Request>, ifindex: nat, out: seq<Qdisc>)
    ensures ProperSince(before, before + ReplayRequests(ifindex, out, |out|))
  {
    forall r | r in (before + ReplayRequests(ifindex, out, |out|))[|before|..]
      ensures ProperReplace(r)
    {
      RequestsAreWanted(ifindex, out, |out|, r);
    }
  }

  /** When every claim that is tried goes through, nothing can be orphaned. */
  lemma ClaimsPreventOrphans(s: InterfaceSnapshot, r: nat, before: Tree, after: Tree)
    requires SavedTree(s.qdiscs, r) && ReAttached(s.qdiscs, r, before)
    requires ShouldClaimRoot(s.qdiscs[r]) ==>
      after == ClaimedTree(before, s.ifindex, s.qdiscs[r].handle, s.qdiscs[r].kind)
    requires !ShouldClaimRoot(s.qdiscs[r]) ==> after == before
    ensures !Orphaned(s.qdiscs, r, after)
  {
    if ShouldClaimRoot(s.qdiscs[r]) {
      var root := Qdisc(s.ifindex, s.qdiscs[r].kind, s.qdiscs[r].handle, TC_H_ROOT, "", false);
      FindsClaimed(HookQdiscs(before), root);
      IndexOfHandle(s.qdiscs, r, r);
    }
  }

  ghost predicate RestoreOrphans(qs: seq<Qdisc>, r: nat, tree: Tree) {
    SavedTree(qs, r) && ReAttached(qs, r, tree) && Orphaned(qs, r, tree)
  }

  /** It can happen: htb under a child class of mq, netem under htb, and the live mq left
      without a handle. */
  lemma GrandchildCanBeOrphaned()
    ensures exists qs, r: nat, tree :: RestoreOrphans(qs, r, tree)
  {
    var qs, r, tree := OrphaningTree();
  }

  lemma OrphaningTree() returns (saved: seq<Qdisc>, r: nat, live: Tree)
    ensures RestoreOrphans(saved, r, live)
  {
    hide Index, Grounded;
    var mq := Qdisc(2, Mq, 0x8026_0000, TC_H_ROOT, "", false);
    var htb := Qdisc(2, OtherKind("htb"), 0x10_0000, 0x8026_0001, "", false);
    var netem := Qdisc(2, OtherKind("netem"), 0x20_0000, 0x10_0001, "", false);
    var qs, tree := [mq, htb, netem], [mq.(handle := 0)];
    ThreeGenerations(qs);
    assert IsGrandchild(qs, 0, 2) && SavedTree(qs, 0);
    assert FindLiveRootMajor(tree, Mq) == Some(0);
    assert ReAttached(qs, 0, tree) by { assert forall m :: HasMajor(tree, m) ==> m == 0; }
    return qs, 0, tree;
  }

  lemma ThreeGenerations(qs: seq<Qdisc>)
    requires |qs| == 3 && AtRoot(qs[0].parent)
    requires qs[0].handle == 0x8026_0000 && qs[1].handle == 0x10_0000 && qs[2].handle == 0x20_0000
    requires qs[1].parent == 0x8026_0001 && qs[2].parent == 0x10_0001
    ensures ParentOf(qs, 0) == None && ParentOf(qs, 1) == Some(0) && ParentOf(qs, 2) == Some(1)
    ensures forall i :: 0 <= i < 3 ==> Grounded(qs, i)
  {
    IndexInRange(qs);
    GroundedByParent(qs, 0);
    GroundedByParent(qs, 1);
    GroundedByParent(qs, 2);
  }
}
