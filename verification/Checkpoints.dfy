/** Checkpoint hashes by workspace root: lookup and equality by root identity instead of position. */
module Checkpoints {
  import opened Options

  datatype ReferenceSet = ReferenceSet(hashes: seq<string>, workspaceRoots: seq<string>)

  /** The first root that normalises like `path`, or -1; `norm` stands for the host's path normalisation. */
  function FindRoot(norm: string -> string, roots: seq<string>, path: string): (i: int)
    ensures -1 <= i < |roots|
    ensures i >= 0 ==> norm(roots[i]) == norm(path)
    ensures forall j :: 0 <= j < (if i < 0 then |roots| else i) ==> norm(roots[j]) != norm(path)
  {
    if roots == [] then -1
    else if norm(roots[0]) == norm(path) then 0
    else
      var i := FindRoot(norm, roots[1..], path);
      if i < 0 then -1 else i + 1
  }

  function NonEmptyAt(hashes: seq<string>, i: int): Option<string> {
    if 0 <= i < |hashes| && hashes[i] != "" then Some(hashes[i]) else None
  }

  function GetCheckpointHashForWorkspace(norm: string -> string, s: ReferenceSet, path: string, fallbackIndex: int): Option<string> {
    var persistedIndex := FindRoot(norm, s.workspaceRoots, path);
    if persistedIndex >= 0 then NonEmptyAt(s.hashes, persistedIndex)
    else if |s.workspaceRoots| > 0 then None
    else NonEmptyAt(s.hashes, fallbackIndex)
  }

  function OrEmpty(hash: Option<string>): string {
    if hash.Some? then hash.value else ""
  }

  predicate CheckpointReferenceSetsEqual(norm: string -> string, left: Option<ReferenceSet>, right: Option<ReferenceSet>) {
    if left == None || right == None then false
    else
      var l, r := left.value, right.value;
      if l.workspaceRoots != [] || r.workspaceRoots != [] then
        if l.workspaceRoots == [] || r.workspaceRoots == []
           || |l.workspaceRoots| != |r.workspaceRoots|
           || |l.hashes| != |l.workspaceRoots| || |r.hashes| != |r.workspaceRoots|
        then false
        else
          forall i :: 0 <= i < |l.workspaceRoots| ==>
            l.hashes[i] == OrEmpty(GetCheckpointHashForWorkspace(norm, r, l.workspaceRoots[i], i))
      else |l.hashes| == |r.hashes| && forall i :: 0 <= i < |l.hashes| ==> l.hashes[i] == r.hashes[i]
  }

  /** One hash for each root, and no two roots that normalise alike. */
  ghost predicate IsProper(norm: string -> string, s: ReferenceSet) {
    && |s.hashes| == |s.workspaceRoots| > 0
    && forall i, j :: 0 <= i < j < |s.workspaceRoots| ==> norm(s.workspaceRoots[i]) != norm(s.workspaceRoots[j])
  }

  /** The map from root to hash that a reference set denotes. */
  ghost function Denoted(norm: string -> string, s: ReferenceSet, n: nat): map<string, string>
    requires n <= |s.workspaceRoots| && n <= |s.hashes|
  {
    if n == 0 then map[] else Denoted(norm, s, n - 1)[norm(s.workspaceRoots[n - 1]) := s.hashes[n - 1]]
  }

  ghost function AsMap(norm: string -> string, s: ReferenceSet): map<string, string>
    requires IsProper(norm, s)
  {
    Denoted(norm, s, |s.hashes|)
  }

  ghost predicate IsRootBelow(norm: string -> string, s: ReferenceSet, n: nat, root: string) {
    exists i :: 0 <= i < n && i < |s.workspaceRoots| && norm(s.workspaceRoots[i]) == root
  }

  lemma {:induction false} DenotedRoots(norm: string -> string, s: ReferenceSet, n: nat)
    requires IsProper(norm, s) && n <= |s.hashes|
    ensures forall root :: root in Denoted(norm, s, n) <==> IsRootBelow(norm, s, n, root)
    ensures |Denoted(norm, s, n)| == n
  {
    hide IsRootBelow;
    if n == 0 {
      NoRootBelow(norm, s);
    } else {
      DenotedRoots(norm, s, n - 1);
      forall root
        ensures root in Denoted(norm, s, n) <==> IsRootBelow(norm, s, n, root)
      {
        RootBelow(norm, s, n, root);
      }
      RootBelow(norm, s, n, norm(s.workspaceRoots[n - 1]));
    }
  }

  lemma NoRootBelow(norm: string -> string, s: ReferenceSet)
    ensures forall root :: !IsRootBelow(norm, s, 0, root)
  {
  }

  lemma RootBelow(norm: string -> string, s: ReferenceSet, n: nat, root: string)
    requires IsProper(norm, s) && 0 < n <= |s.hashes|
    ensures IsRootBelow(norm, s, n, root) <==> root == norm(s.workspaceRoots[n - 1]) || IsRootBelow(norm, s, n - 1, root)
    ensures !IsRootBelow(norm, s, n - 1, norm(s.workspaceRoots[n - 1]))
  {
    if root == norm(s.workspaceRoots[n - 1]) {
      assert IsRootBelow(norm, s, n, root);
    }
  }

  lemma {:induction false} DenotedHash(norm: string -> string, s: ReferenceSet, n: nat, i: nat)
    requires IsProper(norm, s) && i < n <= |s.hashes|
    ensures norm(s.workspaceRoots[i]) in Denoted(norm, s, n) && Denoted(norm, s, n)[norm(s.workspaceRoots[i])] == s.hashes[i]
  {
    if i < n - 1 {
      DenotedHash(norm, s, n - 1, i);
    }
  }

  lemma DenotedEntries(norm: string -> string, s: ReferenceSet, n: nat)
    requires IsProper(norm, s) && n <= |s.hashes|
    ensures forall i :: 0 <= i < n ==>
      norm(s.workspaceRoots[i]) in Denoted(norm, s, n) && Denoted(norm, s, n)[norm(s.workspaceRoots[i])] == s.hashes[i]
    ensures forall root :: root in Denoted(norm, s, n) ==> exists i :: 0 <= i < n && norm(s.workspaceRoots[i]) == root
    ensures |Denoted(norm, s, n)| == n
  {
    hide Denoted;
    DenotedRoots(norm, s, n);
    forall i | 0 <= i < n
      ensures norm(s.workspaceRoots[i]) in Denoted(norm, s, n) && Denoted(norm, s, n)[norm(s.workspaceRoots[i])] == s.hashes[i]
    {
      DenotedHash(norm, s, n, i);
    }
    forall root | root in Denoted(norm, s, n)
      ensures exists i :: 0 <= i < n && norm(s.workspaceRoots[i]) == root
    {
      assert IsRootBelow(norm, s, n, root);
    }
  }

  /** A lookup reads the denoted map, for which an empty hash is no hash. */
  lemma LookupReadsMap(norm: string -> string, s: ReferenceSet, path: string, fallbackIndex: int)
    requires IsProper(norm, s)
    ensures OrEmpty(GetCheckpointHashForWorkspace(norm, s, path, fallbackIndex))
         == if norm(path) in AsMap(norm, s) then AsMap(norm, s)[norm(path)] else ""
  {
    DenotedEntries(norm, s, |s.hashes|);
  }

  ghost function HashAt(m: map<string, string>, root: string): string {
    if root in m then m[root] else ""
  }

  /** What the comparison decides: the right side has the left side's hash at each of the left side's roots. */
  lemma EqualComparesLeftRoots(norm: string -> string, l: ReferenceSet, r: ReferenceSet)
    requires IsProper(norm, l) && IsProper(norm, r)
    ensures CheckpointReferenceSetsEqual(norm, Some(l), Some(r))
      <==> |l.workspaceRoots| == |r.workspaceRoots|
           && forall root :: root in AsMap(norm, l) ==> AsMap(norm, l)[root] == HashAt(AsMap(norm, r), root)
  {
    hide Denoted, FindRoot, GetCheckpointHashForWorkspace;
    EqualComparesPositions(norm, l, r);
    DenotedEntries(norm, l, |l.hashes|);
    if forall i :: 0 <= i < |l.hashes| ==> l.hashes[i] == HashAt(AsMap(norm, r), norm(l.workspaceRoots[i])) {
      forall root | root in AsMap(norm, l)
        ensures AsMap(norm, l)[root] == HashAt(AsMap(norm, r), root)
      {
        var i :| 0 <= i < |l.hashes| && norm(l.workspaceRoots[i]) == root;
      }
    }
  }

  lemma EqualComparesPositions(norm: string -> string, l: ReferenceSet, r: ReferenceSet)
    requires IsProper(norm, l) && IsProper(norm, r)
    ensures CheckpointReferenceSetsEqual(norm, Some(l), Some(r))
      <==> |l.workspaceRoots| == |r.workspaceRoots|
           && forall i :: 0 <= i < |l.hashes| ==> l.hashes[i] == HashAt(AsMap(norm, r), norm(l.workspaceRoots[i]))
  {
    hide Denoted, FindRoot, GetCheckpointHashForWorkspace;
    forall i | 0 <= i < |l.workspaceRoots|
      ensures OrEmpty(GetCheckpointHashForWorkspace(norm, r, l.workspaceRoots[i], i))
           == HashAt(AsMap(norm, r), norm(l.workspaceRoots[i]))
    {
      LookupReadsMap(norm, r, l.workspaceRoots[i], i);
    }
  }

  /** A map inside another of the same size is that map. */
  lemma SubmapOfSameSize(a: map<string, string>, b: map<string, string>)
    requires |a| == |b| && forall root :: root in a ==> root in b && a[root] == b[root]
    ensures a == b
  {
    if exists root :: root in b && root !in a {
      var root :| root in b && root !in a;
      assert a.Keys <= b.Keys - {root};
      SubsetSize(a.Keys, b.Keys - {root});
      assert false;
    }
  }

  lemma {:induction false} SubsetSize(a: set<string>, b: set<string>)
    requires a <= b
    ensures |a| <= |b|
  {
    if a != {} {
      var x :| x in a;
      SubsetSize(a - {x}, b - {x});
    }
  }

  ghost predicate AllHashed(s: ReferenceSet) {
    forall i :: 0 <= i < |s.hashes| ==> s.hashes[i] != ""
  }

  /** With non-empty hashes on the left, two reference sets are equal exactly when they denote the same map. */
  lemma EqualIffSameMap(norm: string -> string, l: ReferenceSet, r: ReferenceSet)
    requires IsProper(norm, l) && IsProper(norm, r) && AllHashed(l)
    ensures CheckpointReferenceSetsEqual(norm, Some(l), Some(r)) <==> AsMap(norm, l) == AsMap(norm, r)
  {
    EqualComparesLeftRoots(norm, l, r);
    DenotedEntries(norm, l, |l.hashes|);
    DenotedEntries(norm, r, |r.hashes|);
    if CheckpointReferenceSetsEqual(norm, Some(l), Some(r)) {
      SubmapOfSameSize(AsMap(norm, l), AsMap(norm, r));
    }
  }

  /** So equality of fully hashed sets is an equivalence. */
  lemma EqualityIsEquivalence(norm: string -> string, a: ReferenceSet, b: ReferenceSet, c: ReferenceSet)
    requires IsProper(norm, a) && IsProper(norm, b) && IsProper(norm, c)
    requires AllHashed(a) && AllHashed(b) && AllHashed(c)
    ensures CheckpointReferenceSetsEqual(norm, Some(a), Some(a))
    ensures CheckpointReferenceSetsEqual(norm, Some(a), Some(b)) ==> CheckpointReferenceSetsEqual(norm, Some(b), Some(a))
    ensures CheckpointReferenceSetsEqual(norm, Some(a), Some(b)) && CheckpointReferenceSetsEqual(norm, Some(b), Some(c))
      ==> CheckpointReferenceSetsEqual(norm, Some(a), Some(c))
  {
    hide CheckpointReferenceSetsEqual, AsMap;
    EqualIffSameMap(norm, a, a);
    EqualIffSameMap(norm, a, b);
    EqualIffSameMap(norm, b, a);
    EqualIffSameMap(norm, b, c);
    EqualIffSameMap(norm, a, c);
  }

  /** Exactly when equality can be turned round: the right side has no non-empty hash at a root the left side lacks. */
  lemma EqualityTurnsRound(norm: string -> string, l: ReferenceSet, r: ReferenceSet)
    requires IsProper(norm, l) && IsProper(norm, r) && CheckpointReferenceSetsEqual(norm, Some(l), Some(r))
    ensures CheckpointReferenceSetsEqual(norm, Some(r), Some(l))
      <==> forall root :: root in AsMap(norm, r) && AsMap(norm, r)[root] != "" ==> root in AsMap(norm, l)
  {
    hide CheckpointReferenceSetsEqual, AsMap;
    EqualComparesLeftRoots(norm, l, r);
    EqualComparesLeftRoots(norm, r, l);
  }

  /**
   Exactly when two equalities chain: no root of the first set that the second lacks has a non-empty hash in the third.
   A fully hashed first set has no such root.
   */
  lemma EqualityChains(norm: string -> string, a: ReferenceSet, b: ReferenceSet, c: ReferenceSet)
    requires IsProper(norm, a) && IsProper(norm, b) && IsProper(norm, c)
    requires CheckpointReferenceSetsEqual(norm, Some(a), Some(b)) && CheckpointReferenceSetsEqual(norm, Some(b), Some(c))
    ensures CheckpointReferenceSetsEqual(norm, Some(a), Some(c))
      <==> forall root :: root in AsMap(norm, a) && root !in AsMap(norm, b) ==> HashAt(AsMap(norm, c), root) == ""
  {
    hide CheckpointReferenceSetsEqual, AsMap;
    EqualComparesLeftRoots(norm, a, b);
    EqualComparesLeftRoots(norm, b, c);
    EqualComparesLeftRoots(norm, a, c);
  }

  /** With empty hashes equality is not transitive. */
  lemma EmptyHashIsNotTransitive(norm: string -> string, x: string, y: string, z: string)
    requires norm(x) != norm(y) && norm(y) != norm(z) && norm(x) != norm(z)
    ensures var a, b, c := ReferenceSet(["", "1"], [x, y]), ReferenceSet(["1", ""], [y, z]), ReferenceSet(["1", "3"], [y, x]);
      && CheckpointReferenceSetsEqual(norm, Some(a), Some(b)) && CheckpointReferenceSetsEqual(norm, Some(b), Some(c))
      && !CheckpointReferenceSetsEqual(norm, Some(a), Some(c))
  {
    hide CheckpointReferenceSetsEqual, AsMap;
    var a, b, c := ReferenceSet(["", "1"], [x, y]), ReferenceSet(["1", ""], [y, z]), ReferenceSet(["1", "3"], [y, x]);
    EqualComparesLeftRoots(norm, a, b);
    EqualComparesLeftRoots(norm, b, c);
    EqualComparesLeftRoots(norm, a, c);
    TwoRoots(norm, a);
    TwoRoots(norm, b);
    TwoRoots(norm, c);
    assert norm(x) in AsMap(norm, a) && HashAt(AsMap(norm, c), norm(x)) == "3";
  }

  lemma TwoRoots(norm: string -> string, s: ReferenceSet)
    requires IsProper(norm, s) && |s.hashes| == 2
    ensures AsMap(norm, s) == map[norm(s.workspaceRoots[0]) := s.hashes[0], norm(s.workspaceRoots[1]) := s.hashes[1]]
  {
    assert Denoted(norm, s, 1) == map[norm(s.workspaceRoots[0]) := s.hashes[0]] by {
      assert Denoted(norm, s, 0) == map[];
    }
  }

  /** With an empty hash equality is not symmetric. */
  lemma EmptyHashIsNotSymmetric(norm: string -> string, a: string, b: string)
    requires norm(a) != norm(b)
    ensures var l, r := ReferenceSet([""], [a]), ReferenceSet(["h"], [b]);
      && CheckpointReferenceSetsEqual(norm, Some(l), Some(r))
      && !CheckpointReferenceSetsEqual(norm, Some(r), Some(l))
  {
    var l, r := ReferenceSet([""], [a]), ReferenceSet(["h"], [b]);
    EqualComparesLeftRoots(norm, l, r);
    EqualComparesLeftRoots(norm, r, l);
    assert norm(a) in AsMap(norm, l) && norm(b) in AsMap(norm, r);
  }

  /** `order` lists each position below `n` once. */
  ghost predicate IsPermutation(order: seq<nat>, n: nat) {
    && |order| == n
    && (forall i :: 0 <= i < n ==> order[i] < n)
    && (forall i, j :: 0 <= i < j < n ==> order[i] != order[j])
  }

  function Reordered(s: ReferenceSet, order: seq<nat>): ReferenceSet
    requires |s.hashes| == |s.workspaceRoots| && forall i :: 0 <= i < |order| ==> order[i] < |s.hashes|
  {
    ReferenceSet(seq(|order|, i requires 0 <= i < |order| => s.hashes[order[i]]),
                 seq(|order|, i requires 0 <= i < |order| => s.workspaceRoots[order[i]]))
  }

  lemma ReorderedIsProper(norm: string -> string, s: ReferenceSet, order: seq<nat>)
    requires IsProper(norm, s) && IsPermutation(order, |s.hashes|)
    ensures IsProper(norm, Reordered(s, order))
  {
    var t := Reordered(s, order);
    forall i, j | 0 <= i < j < |order|
      ensures norm(t.workspaceRoots[i]) != norm(t.workspaceRoots[j])
    {
      assert order[i] < order[j] || order[j] < order[i];
    }
  }

  lemma ReorderedDenotes(norm: string -> string, s: ReferenceSet, order: seq<nat>)
    requires IsProper(norm, s) && IsPermutation(order, |s.hashes|) && IsProper(norm, Reordered(s, order))
    ensures AsMap(norm, Reordered(s, order)) == AsMap(norm, s)
  {
    hide Denoted;
    var t := Reordered(s, order);
    DenotedEntries(norm, s, |s.hashes|);
    DenotedEntries(norm, t, |t.hashes|);
    SubmapOfSameSize(AsMap(norm, t), AsMap(norm, s));
  }

  /** Reordering roots and hashes together changes neither the denoted map nor any lookup. */
  lemma LookupSurvivesReordering(norm: string -> string, s: ReferenceSet, order: seq<nat>, path: string, fallbackIndex: int)
    requires IsProper(norm, s) && IsPermutation(order, |s.hashes|)
    ensures IsProper(norm, Reordered(s, order)) && AsMap(norm, Reordered(s, order)) == AsMap(norm, s)
    ensures GetCheckpointHashForWorkspace(norm, Reordered(s, order), path, fallbackIndex)
         == GetCheckpointHashForWorkspace(norm, s, path, fallbackIndex)
  {
    hide AsMap, Denoted, Reordered;
    ReorderedIsProper(norm, s, order);
    ReorderedDenotes(norm, s, order);
    LookupReadsMap(norm, s, path, fallbackIndex);
    LookupReadsMap(norm, Reordered(s, order), path, fallbackIndex);
    LookupIsNoEmptyHash(norm, s, path, fallbackIndex);
    LookupIsNoEmptyHash(norm, Reordered(s, order), path, fallbackIndex);
  }

  lemma LookupIsNoEmptyHash(norm: string -> string, s: ReferenceSet, path: string, fallbackIndex: int)
    ensures GetCheckpointHashForWorkspace(norm, s, path, fallbackIndex) != Some("")
  {
  }

  // Legacy reference sets, without roots

  /** A set without roots answers by position, whatever the path; an empty hash is none. */
  lemma LegacyLookup(norm: string -> string, hashes: seq<string>, path: string, i: int)
    ensures GetCheckpointHashForWorkspace(norm, ReferenceSet(hashes, []), path, i)
         == if 0 <= i < |hashes| && hashes[i] != "" then Some(hashes[i]) else None
  {
  }

  /** A path that is none of a set's roots has no hash there, whatever the position. */
  lemma UnlistedRootHasNone(norm: string -> string, s: ReferenceSet, path: string, i: int)
    requires s.workspaceRoots != [] && forall k :: 0 <= k < |s.workspaceRoots| ==> norm(s.workspaceRoots[k]) != norm(path)
    ensures GetCheckpointHashForWorkspace(norm, s, path, i) == None
  {
  }

  /** Two sets without roots are equal exactly when their hashes are; a set with roots never equals one without. */
  lemma LegacyEquality(norm: string -> string, hashes: seq<string>, r: ReferenceSet)
    ensures CheckpointReferenceSetsEqual(norm, Some(ReferenceSet(hashes, [])), Some(r)) <==> r == ReferenceSet(hashes, [])
    ensures CheckpointReferenceSetsEqual(norm, Some(r), Some(ReferenceSet(hashes, []))) <==> r == ReferenceSet(hashes, [])
  {
  }

  /** An absent set equals none, nor does a set with roots and another number of hashes or roots. */
  lemma UnequalSets(norm: string -> string, l: ReferenceSet, r: ReferenceSet)
    ensures !CheckpointReferenceSetsEqual(norm, None, Some(r)) && !CheckpointReferenceSetsEqual(norm, Some(l), None)
    ensures !CheckpointReferenceSetsEqual(norm, None, None)
    ensures l.workspaceRoots != [] && (|l.hashes| != |l.workspaceRoots| || |r.hashes| != |r.workspaceRoots|
                                       || |l.workspaceRoots| != |r.workspaceRoots|)
      ==> !CheckpointReferenceSetsEqual(norm, Some(l), Some(r))
  {
  }
}
