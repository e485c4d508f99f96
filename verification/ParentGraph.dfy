/** Graphs in which every node has at most one parent: the shape shared by the chat forest, the
    archived-ancestor walks and the nesting guard. Parents may be missing and chains may be cyclic. */
module ParentGraph {

  /** A trimmed chat id, or none. */
  datatype Id = NoId | Named(name: string)

  /** Parent edges: child id to parent id. The parent need not be a key. */
  type Up = map<Id, Id>

  /** `y` lies exactly `n` parent steps above `x`. */
  ghost predicate Steps(up: Up, x: Id, y: Id, n: nat)
    decreases n
  {
    if n == 0 then x == y else x in up && Steps(up, up[x], y, n - 1)
  }

  /** `y` is `x` or an ancestor of `x`. */
  ghost predicate Reaches(up: Up, x: Id, y: Id) {
    exists n: nat :: Steps(up, x, y, n)
  }

  /** `y` is a proper ancestor of `x` (of itself, on a cycle). */
  ghost predicate Above(up: Up, x: Id, y: Id) {
    x in up && Reaches(up, up[x], y)
  }

  ghost predicate Acyclic(up: Up) {
    forall x :: x in up ==> !Above(up, x, x)
  }

  lemma ReachesSelf(up: Up, x: Id)
    ensures Reaches(up, x, x)
  {
    assert Steps(up, x, x, 0);
  }

  /** Unfolds reachability at its first step. */
  lemma ReachesUnfold(up: Up, x: Id, y: Id)
    ensures Reaches(up, x, y) <==> x == y || Above(up, x, y)
  {
    if Reaches(up, x, y) && x != y {
      var n: nat :| Steps(up, x, y, n);
      assert n > 0 && Steps(up, up[x], y, n - 1);
    }
    if x == y {
      ReachesSelf(up, x);
    } else if Above(up, x, y) {
      var n: nat :| Steps(up, up[x], y, n);
      assert Steps(up, x, y, n + 1);
    }
  }

  lemma {:induction false} StepsTransitive(up: Up, x: Id, y: Id, z: Id, m: nat, n: nat)
    requires Steps(up, x, y, m) && Steps(up, y, z, n)
    ensures Steps(up, x, z, m + n)
    decreases m
  {
    if m > 0 {
      StepsTransitive(up, up[x], y, z, m - 1, n);
    }
  }

  lemma ReachesTransitive(up: Up, x: Id, y: Id, z: Id)
    requires Reaches(up, x, y) && Reaches(up, y, z)
    ensures Reaches(up, x, z)
  {
    var m: nat :| Steps(up, x, y, m);
    var n: nat :| Steps(up, y, z, n);
    StepsTransitive(up, x, y, z, m, n);
  }

  /** A set that contains `x` and is closed under parents contains every ancestor of `x`. */
  lemma {:induction false} ClosedContains(up: Up, s: set<Id>, x: Id, y: Id, n: nat)
    requires x in s && Steps(up, x, y, n)
    requires forall z {:trigger up[z]} :: z in s && z in up ==> up[z] in s
    ensures y in s
    decreases n
  {
    if n > 0 {
      ClosedContains(up, s, up[x], y, n - 1);
    }
  }

  /** A set that holds the parent of `x` and is closed under parents holds every proper ancestor. */
  lemma ClosedHoldsAncestors(up: Up, s: set<Id>, x: Id)
    requires x in up ==> up[x] in s
    requires forall z {:trigger up[z]} :: z in s && z in up ==> up[z] in s
    ensures forall y :: Above(up, x, y) ==> y in s
  {
    forall y | Above(up, x, y) ensures y in s {
      var n: nat :| Steps(up, up[x], y, n);
      ClosedContains(up, s, up[x], y, n);
    }
  }

  /** A set that contains `root` and every child of its members contains all descendants of `root`. */
  lemma {:induction false} ClosedDownContains(up: Up, s: set<Id>, x: Id, root: Id, n: nat)
    requires root in s && Steps(up, x, root, n)
    requires forall z {:trigger up[z]} :: z in up && up[z] in s ==> z in s
    ensures x in s
    decreases n
  {
    if n > 0 {
      ClosedDownContains(up, s, up[x], root, n - 1);
    }
  }

  /** The number of steps to a node that has no parent is unique. */
  lemma {:induction false} TopUnique(up: Up, x: Id, top: Id, top': Id, n: nat, n': nat)
    requires top !in up && top' !in up
    requires Steps(up, x, top, n) && Steps(up, x, top', n')
    ensures n == n' && top == top'
    decreases n
  {
    if n > 0 && n' > 0 {
      TopUnique(up, up[x], top, top', n - 1, n' - 1);
    }
  }

  // ---- Re-parenting -------------------------------------------------------------------------

  /** Whoever lies on a cycle passes that property on to its ancestors. */
  lemma {:induction false} CycleShift(up: Up, y: Id, x: Id, n: nat)
    requires Above(up, y, y) && Steps(up, y, x, n)
    ensures Above(up, x, x)
    decreases n
  {
    if n > 0 {
      var p := up[y];
      ReachesUnfold(up, p, y);
      var m: nat :| Steps(up, p, y, m);
      assert Steps(up, y, p, 1) by { assert Steps(up, p, p, 0); }
      StepsTransitive(up, p, y, p, m, 1);
      assert Steps(up, up[p], p, m);
      CycleShift(up, p, x, n - 1);
    }
  }

  /** A walk that ends at the re-parented node used only old edges. */
  lemma {:induction false} WalkToMoved(up: Up, x: Id, parent: Id, a: Id, n: nat)
    requires Steps(up[x := parent], a, x, n)
    ensures Reaches(up, a, x)
    decreases n
  {
    if a == x {
      ReachesSelf(up, x);
    } else {
      WalkToMoved(up, x, parent, up[a], n - 1);
      ReachesUnfold(up, a, x);
    }
  }

  /** A walk that never meets the re-parented node used only old edges. */
  lemma {:induction false} WalkAvoidingMoved(up: Up, x: Id, parent: Id, a: Id, b: Id, n: nat)
    requires Steps(up[x := parent], a, b, n) && !Reaches(up[x := parent], a, x)
    ensures Steps(up, a, b, n)
    decreases n
  {
    ReachesUnfold(up[x := parent], a, x);
    if n > 0 {
      WalkAvoidingMoved(up, x, parent, up[a], b, n - 1);
    }
  }

  /** Nesting a node under one that is not below it keeps an acyclic graph acyclic. */
  lemma ReparentKeepsAcyclic(up: Up, x: Id, parent: Id)
    requires Acyclic(up) && !Reaches(up, parent, x)
    ensures Acyclic(up[x := parent])
  {
    var moved := up[x := parent];
    forall y | y in moved ensures !Above(moved, y, y) {
      if Above(moved, y, y) {
        if Reaches(moved, y, x) {
          var n: nat :| Steps(moved, y, x, n);
          CycleShift(moved, y, x, n);
          var m: nat :| Steps(moved, parent, x, m);
          WalkToMoved(up, x, parent, parent, m);
        } else {
          var n: nat :| Steps(moved, moved[y], y, n);
          ReachesUnfold(moved, y, x);
          WalkAvoidingMoved(up, x, parent, moved[y], y, n);
        }
        assert false;
      }
    }
  }

  /** Nesting a node under itself or a descendant always closes a cycle. */
  lemma ReparentUnderDescendantCloses(up: Up, x: Id, parent: Id)
    requires Acyclic(up) && Reaches(up, parent, x)
    ensures !Acyclic(up[x := parent])
  {
    var moved := up[x := parent];
    var n: nat :| Steps(up, parent, x, n);
    WalkSurvivesMove(up, x, parent, parent, n);
    assert Above(moved, x, x);
  }

  lemma {:induction false} WalkSurvivesMove(up: Up, x: Id, parent: Id, a: Id, n: nat)
    requires Steps(up, a, x, n)
    ensures Reaches(up[x := parent], a, x)
    decreases n
  {
    var moved := up[x := parent];
    if a == x {
      ReachesSelf(moved, x);
    } else {
      WalkSurvivesMove(up, x, parent, up[a], n - 1);
      ReachesUnfold(moved, a, x);
    }
  }

  // ---- Archived ancestors -------------------------------------------------------------------

  /** The edges an archived-ancestor walk may follow: those that lead to an archived row. */
  function ArchivedEdges(parentOf: Up, archived: set<Id>): Up {
    map id | id in parentOf && parentOf[id] in archived :: parentOf[id]
  }

  /** Archived rows that a live row reaches through an unbroken chain of archived rows. */
  ghost function KeptAncestors(parentOf: Up, live: set<Id>, archived: set<Id>): set<Id> {
    set k | k in archived && exists x :: x in live && Above(ArchivedEdges(parentOf, archived), x, k)
  }

  /** Every proper ancestor along archived edges is archived. */
  lemma {:induction false} ArchivedAbove(parentOf: Up, archived: set<Id>, x: Id, y: Id, n: nat)
    requires x in archived && Steps(ArchivedEdges(parentOf, archived), x, y, n)
    ensures y in archived
    decreases n
  {
    if n > 0 {
      ArchivedAbove(parentOf, archived, parentOf[x], y, n - 1);
    }
  }

  lemma AboveIsArchived(parentOf: Up, archived: set<Id>, x: Id, y: Id)
    requires Above(ArchivedEdges(parentOf, archived), x, y)
    ensures y in archived
  {
    var up := ArchivedEdges(parentOf, archived);
    var n: nat :| Steps(up, up[x], y, n);
    ArchivedAbove(parentOf, archived, up[x], y, n);
  }

  // ---- Walking upward with a guard against cycles -------------------------------------------

  /** `next` reads the parent edges of `up`; `NoId` means that the walk stops. */
  ghost predicate IsNext(next: Id -> Id, up: Up) {
    forall id :: id != NoId ==> next(id) == (if id in up then up[id] else NoId) && (id in up ==> up[id] != NoId)
  }

  /** The loop behind every ancestor walk: climb until the chain ends or repeats. It collects exactly
      the proper ancestors of `start`, on any graph. */
  method WalkAbove(next: Id -> Id, ghost up: Up, start: Id) returns (above: set<Id>)
    requires IsNext(next, up) && start != NoId
    ensures forall y :: y in above <==> Above(up, start, y)
  {
    above := {};
    ghost var node := start;
    var parentId := next(start);
    ReachesSelf(up, parentId);
    while parentId != NoId && parentId !in above
      invariant node == start || node in above
      invariant above <= up.Values && forall y :: y in above ==> Above(up, start, y)
      invariant if parentId == NoId then node !in up
                else node in up && up[node] == parentId && Above(up, start, parentId)
      invariant start in up && start != node ==> up[start] in above
      invariant forall b {:trigger up[b]} :: b in above && b != node && b in up ==> up[b] in above
      decreases up.Values - above
    {
      above := above + {parentId};
      node := parentId;
      parentId := next(parentId);
      if parentId != NoId {
        ReachesSelf(up, parentId);
        ReachesUnfold(up, node, parentId);
        ReachesTransitive(up, up[start], node, parentId);
      }
    }
    ClosedHoldsAncestors(up, above, start);
  }

  /** The amortised form: climb from `start` and mark, stopping at the first ancestor that is already
      marked. Since marks are closed under parents, stopping there loses nothing; each step adds one mark. */
  method ClimbInto(next: Id -> Id, ghost up: Up, start: Id, marked: set<Id>) returns (all: set<Id>, steps: nat)
    requires IsNext(next, up) && start != NoId
    requires forall b {:trigger up[b]} :: b in marked && b != start && b in up ==> up[b] in marked
    ensures marked <= all && steps == |all| - |marked|
    ensures forall y :: y in all ==> y in marked || Above(up, start, y)
    ensures start in up ==> up[start] in all
    ensures forall b {:trigger up[b]} :: b in all && b in up ==> up[b] in all
  {
    all, steps := marked, 0;
    ghost var node := start;
    var parentId := next(start);
    ReachesSelf(up, parentId);
    while parentId != NoId && parentId !in all
      invariant marked <= all && steps == |all| - |marked|
      invariant forall y :: y in all ==> y in marked || Above(up, start, y)
      invariant if parentId == NoId then node !in up
                else node in up && up[node] == parentId && Above(up, start, parentId)
      invariant start in up && start != node ==> up[start] in all
      invariant forall b {:trigger up[b]} :: b in all && b != node && b in up && (b != start || start != node) ==>
        up[b] in all
      decreases up.Values - all
    {
      all, steps := all + {parentId}, steps + 1;
      node := parentId;
      parentId := next(parentId);
      if parentId != NoId {
        ReachesSelf(up, parentId);
        ReachesUnfold(up, node, parentId);
        ReachesTransitive(up, up[start], node, parentId);
      }
    }
  }
}
