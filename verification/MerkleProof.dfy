/** Multi-leaf proofs: what the prover emits, what the verifier folds, and why the two agree.
    A BTreeSet or BTreeMap yields its elements in ascending order; that iteration is written
    here as a scan over the indices of the level which visits those present.
 */
module MerkleProofs {
  import opened Digests
  import opened MerkleTrees

  datatype MerkleProof = MerkleProof(
    leafData: seq<seq<Byte>>, leafIndices: seq<nat>, totalLeaves: nat, root: Digest, siblings: seq<Digest>)

  // ----- the prover's side -----

  ghost predicate Below(s: set<nat>, n: nat) {
    forall i | i in s :: i < n
  }

  function Parents(s: set<nat>): (p: set<nat>) {
    set i | i in s :: i / 2
  }

  /** The siblings emitted when the scan of a level reaches index i. */
  function EmitAt(s: set<nat>, level: seq<Digest>, i: nat): (out: seq<Digest>)
    requires i < |level|
  {
    if i !in s then []
    else if i % 2 == 1 then (if i - 1 in s then [] else [level[i - 1]])
    else if i + 1 !in s && i + 1 < |level| then [level[i + 1]]
    else []
  }

  function EmitFrom(s: set<nat>, level: seq<Digest>, i: nat): (out: seq<Digest>)
    decreases |level| - i
  {
    if i >= |level| then [] else EmitAt(s, level, i) + EmitFrom(s, level, i + 1)
  }

  /** All siblings of a proof, level by level from `level` to the root. */
  function Siblings(key: Key, level: seq<Digest>, s: set<nat>): (out: seq<Digest>)
    decreases |level|
  {
    if |level| <= 1 then [] else EmitFrom(s, level, 0) + Siblings(key, Combine(key, level), Parents(s))
  }

  // ----- the verifier's side -----

  datatype Fold = Short | Folded(next: map<nat, Digest>, rest: seq<Digest>)

  /** The verifier's work at index i of a level of n nodes. */
  function FoldAt(key: Key, cur: map<nat, Digest>, n: nat, i: nat,
                  next: map<nat, Digest>, sibs: seq<Digest>): (f: Fold)
  {
    if i !in cur then Folded(next, sibs)
    else if i % 2 == 0 then
      if i + 1 in cur then Folded(next[i / 2 := Parent(key, cur[i], cur[i + 1])], sibs)
      else if i + 1 < n then
        if sibs == [] then Short else Folded(next[i / 2 := Parent(key, cur[i], sibs[0])], sibs[1..])
      else Folded(next[i / 2 := cur[i]], sibs)
    else if i - 1 in cur then Folded(next, sibs)
    else if sibs == [] then Short
    else Folded(next[i / 2 := Parent(key, sibs[0], cur[i])], sibs[1..])
  }

  function FoldFrom(key: Key, cur: map<nat, Digest>, n: nat, bound: nat, i: nat,
                    next: map<nat, Digest>, sibs: seq<Digest>): (f: Fold)
    decreases bound - i
  {
    if i >= bound then Folded(next, sibs) else
      var f := FoldAt(key, cur, n, i, next, sibs);
      if f.Short? then Short else FoldFrom(key, cur, n, bound, i + 1, f.next, f.rest)
  }

  /** The last combination: a side that is not known is taken from the siblings, none may be left over. */
  function FinalRoot(key: Key, cur: map<nat, Digest>, sibs: seq<Digest>): (r: Option<Digest>) {
    if 0 !in cur && sibs == [] then None else
      var (left, rest) := if 0 in cur then (cur[0], sibs) else (sibs[0], sibs[1..]);
      if 1 !in cur && rest == [] then None else
        var (right, rest') := if 1 in cur then (cur[1], rest) else (rest[0], rest[1..]);
        if rest' == [] then Some(Root(key, left, right)) else None
  }

  function RootFrom(key: Key, cur: map<nat, Digest>, bound: nat, n: nat, sibs: seq<Digest>): (r: Option<Digest>)
    decreases n
  {
    if n > 2 then
      var f := FoldFrom(key, cur, n, bound, 0, map[], sibs);
      if f.Short? then None else RootFrom(key, f.next, Half(bound), Half(n), f.rest)
    else FinalRoot(key, cur, sibs)
  }

  // ----- an honest level folds to the honest next level -----

  /** The nodes of a level at the indices in s. */
  function Known(s: set<nat>, level: seq<Digest>): (m: map<nat, Digest>)
    requires Below(s, |level|)
  {
    map i | i in s :: level[i]
  }

  function Upto(s: set<nat>, i: nat): set<nat> {
    set c | c in s && c < i
  }

  lemma ParentsBelow(s: set<nat>, n: nat)
    requires Below(s, n)
    ensures Below(Parents(s), Half(n))
  {
  }

  lemma ParentsUptoStep(s: set<nat>, i: nat)
    ensures i in s ==> Parents(Upto(s, i + 1)) == Parents(Upto(s, i)) + {i / 2}
    ensures i !in s ==> Parents(Upto(s, i + 1)) == Parents(Upto(s, i))
    ensures i in s && i % 2 == 1 && i - 1 in s ==> i / 2 in Parents(Upto(s, i))
  {
    assert i in s ==> Upto(s, i + 1) == Upto(s, i) + {i};
    assert i !in s ==> Upto(s, i + 1) == Upto(s, i);
    if i in s && i % 2 == 1 && i - 1 in s {
      assert i - 1 in Upto(s, i) && (i - 1) / 2 == i / 2;
    }
  }

  lemma AllEmitted(key: Key, level: seq<Digest>, s: set<nat>, tail: seq<Digest>)
    requires Below(s, |level|) && Below(Parents(s), Half(|level|))
    ensures Upto(s, |level|) == s
    ensures FoldFrom(key, Known(s, level), |level|, |level|, |level|,
                     Known(Parents(s), Combine(key, level)), EmitFrom(s, level, |level|) + tail)
         == Folded(Known(Parents(s), Combine(key, level)), tail)
  {
    assert EmitFrom(s, level, |level|) + tail == tail;
  }

  lemma EmitStep(s: set<nat>, level: seq<Digest>, i: nat, tail: seq<Digest>)
    requires i < |level|
    ensures EmitFrom(s, level, i) + tail == EmitAt(s, level, i) + (EmitFrom(s, level, i + 1) + tail)
  {
    hide EmitAt;
  }

  lemma FoldStep(key: Key, cur: map<nat, Digest>, n: nat, bound: nat, i: nat,
                 next: map<nat, Digest>, sibs: seq<Digest>)
    requires i < bound
    ensures var f := FoldAt(key, cur, n, i, next, sibs);
      FoldFrom(key, cur, n, bound, i, next, sibs) ==
        if f.Short? then Short else FoldFrom(key, cur, n, bound, i + 1, f.next, f.rest)
  {
    hide FoldAt;
  }

  lemma {:induction false} HonestLevelFolds(key: Key, level: seq<Digest>, s: set<nat>, i: nat, tail: seq<Digest>)
    requires Below(s, |level|) && i <= |level|
    ensures Below(Parents(s), Half(|level|)) && Below(Parents(Upto(s, i)), Half(|level|))
    ensures FoldFrom(key, Known(s, level), |level|, |level|, i,
                     Known(Parents(Upto(s, i)), Combine(key, level)), EmitFrom(s, level, i) + tail)
         == Folded(Known(Parents(s), Combine(key, level)), tail)
    decreases |level| - i
  {
    ParentsBelow(s, |level|);
    ParentsBelow(Upto(s, i), |level|);
    hide *;
    if i == |level| {
      AllEmitted(key, level, s, tail);
    } else {
      HonestLevelFolds(key, level, s, i + 1, tail);
      EmitStep(s, level, i, tail);
      HonestStepFolds(key, level, s, i, EmitFrom(s, level, i + 1) + tail);
      FoldStep(key, Known(s, level), |level|, |level|, i,
               Known(Parents(Upto(s, i)), Combine(key, level)), EmitFrom(s, level, i) + tail);
    }
  }

  lemma HonestStepFolds(key: Key, level: seq<Digest>, s: set<nat>, i: nat, tail: seq<Digest>)
    requires Below(s, |level|) && i < |level|
    requires Below(Parents(Upto(s, i)), Half(|level|)) && Below(Parents(Upto(s, i + 1)), Half(|level|))
    ensures FoldAt(key, Known(s, level), |level|, i,
                   Known(Parents(Upto(s, i)), Combine(key, level)), EmitAt(s, level, i) + tail)
         == Folded(Known(Parents(Upto(s, i + 1)), Combine(key, level)), tail)
  {
    ParentsUptoStep(s, i);
  }

  /** Completeness: the verifier consumes exactly the emitted siblings and arrives at the root. */
  lemma {:induction false} HonestProofFolds(key: Key, level: seq<Digest>, s: set<nat>)
    requires |level| >= 2 && s != {} && Below(s, |level|)
    ensures RootFrom(key, Known(s, level), |level|, |level|, Siblings(key, level, s)) == Some(TopRoot(key, level))
    decreases |level|
  {
    if |level| == 2 {
      TopOfTwoEmits(key, level, s);
    } else {
      var up := Combine(key, level);
      var tail := Siblings(key, up, Parents(s));
      HonestLevelFolds(key, level, s, 0, tail);
      assert Known(Parents(Upto(s, 0)), up) == map[];
      assert exists i :: i in s && i / 2 in Parents(s);
      HonestProofFolds(key, up, Parents(s));
    }
  }

  lemma TopOfTwoEmits(key: Key, level: seq<Digest>, s: set<nat>)
    requires |level| == 2
    ensures Siblings(key, level, s) ==
      if 0 in s && 1 !in s then [level[1]] else if 1 in s && 0 !in s then [level[0]] else []
  {
    assert EmitFrom(s, level, 2) == [];
    assert EmitFrom(s, level, 1) == EmitAt(s, level, 1);
    assert EmitFrom(s, level, 0) == EmitAt(s, level, 0) + EmitAt(s, level, 1);
    assert Siblings(key, Combine(key, level), Parents(s)) == [];
  }

  // ----- a level that folds to the true next level was itself true -----

  /** Index i of a level is skipped by the fold: it was paired when the scan was at i - 1. */
  ghost predicate Paired(cur: map<nat, Digest>, i: nat) {
    i % 2 == 1 && i - 1 in cur
  }

  lemma {:induction false} FoldKeeps(key: Key, cur: map<nat, Digest>, n: nat, bound: nat, i: nat,
                                     next: map<nat, Digest>, sibs: seq<Digest>, j: nat)
    requires j in next && (2 * j + 1 < i || (2 * j + 1 == i && 2 * j in cur))
    requires FoldFrom(key, cur, n, bound, i, next, sibs).Folded?
    ensures var f := FoldFrom(key, cur, n, bound, i, next, sibs);
      j in f.next && f.next[j] == next[j]
    decreases bound - i
  {
    if i < bound {
      var f := FoldAt(key, cur, n, i, next, sibs);
      FoldKeeps(key, cur, n, bound, i + 1, f.next, f.rest, j);
    }
  }

  lemma {:induction false} FoldKeys(key: Key, cur: map<nat, Digest>, n: nat, bound: nat, i: nat,
                                    next: map<nat, Digest>, sibs: seq<Digest>)
    requires i <= bound && Below(cur.Keys, bound) && next.Keys == Parents(Upto(cur.Keys, i))
    requires FoldFrom(key, cur, n, bound, i, next, sibs).Folded?
    ensures FoldFrom(key, cur, n, bound, i, next, sibs).next.Keys == Parents(cur.Keys)
    decreases bound - i
  {
    if i == bound {
      assert Upto(cur.Keys, i) == cur.Keys;
    } else {
      ParentsUptoStep(cur.Keys, i);
      var f := FoldAt(key, cur, n, i, next, sibs);
      FoldKeys(key, cur, n, bound, i + 1, f.next, f.rest);
    }
  }

  /** The value the fold leaves at i / 2 is the one it put there at index i. */
  lemma FoldResultAt(key: Key, cur: map<nat, Digest>, n: nat, bound: nat, i: nat,
                     next: map<nat, Digest>, sibs: seq<Digest>)
    requires i < bound && i in cur && !Paired(cur, i)
    requires FoldFrom(key, cur, n, bound, i, next, sibs).Folded?
    ensures FoldAt(key, cur, n, i, next, sibs).Folded?
    ensures var f, g := FoldAt(key, cur, n, i, next, sibs), FoldFrom(key, cur, n, bound, i, next, sibs);
      i / 2 in f.next && i / 2 in g.next && g.next[i / 2] == f.next[i / 2]
  {
    var f := FoldAt(key, cur, n, i, next, sibs);
    FoldKeeps(key, cur, n, bound, i + 1, f.next, f.rest, i / 2);
  }

  lemma {:induction false} LevelBinds(key: Key, cur: map<nat, Digest>, level: seq<Digest>, i: nat,
                                      next: map<nat, Digest>, sibs: seq<Digest>)
    requires i <= |level| && Below(cur.Keys, |level|)
    requires FoldFrom(key, cur, |level|, |level|, i, next, sibs).Folded?
    requires var f := FoldFrom(key, cur, |level|, |level|, i, next, sibs);
      forall j | j in f.next :: j < Half(|level|) && f.next[j] == Combine(key, level)[j]
    ensures forall c | c in cur && i <= c && !(c == i && Paired(cur, i)) :: cur[c] == level[c]
    ensures sibs == EmitFrom(cur.Keys, level, i) + FoldFrom(key, cur, |level|, |level|, i, next, sibs).rest
    decreases |level| - i
  {
    hide FoldAt, EmitAt, Combine;
    if i < |level| {
      var f := FoldAt(key, cur, |level|, i, next, sibs);
      LevelBinds(key, cur, level, i + 1, f.next, f.rest);
      hide FoldFrom;
      if i in cur && !Paired(cur, i) {
        FoldResultAt(key, cur, |level|, |level|, i, next, sibs);
        StepBinds(key, cur, level, i, next, sibs);
      } else {
        StepSkips(key, cur, level, i, next, sibs);
      }
      assert sibs == EmitAt(cur.Keys, level, i) + f.rest;
    }
  }

  lemma StepSkips(key: Key, cur: map<nat, Digest>, level: seq<Digest>, i: nat,
                  next: map<nat, Digest>, sibs: seq<Digest>)
    requires i < |level| && (i !in cur || Paired(cur, i))
    ensures FoldAt(key, cur, |level|, i, next, sibs) == Folded(next, sibs) && EmitAt(cur.Keys, level, i) == []
  {
  }

  lemma StepBinds(key: Key, cur: map<nat, Digest>, level: seq<Digest>, i: nat,
                  next: map<nat, Digest>, sibs: seq<Digest>)
    requires i < |level| && i in cur && !Paired(cur, i) && Below(cur.Keys, |level|)
    requires var f := FoldAt(key, cur, |level|, i, next, sibs);
      f.Folded? && i / 2 in f.next && f.next[i / 2] == Combine(key, level)[i / 2]
    ensures cur[i] == level[i] && (i % 2 == 0 && i + 1 in cur ==> cur[i + 1] == level[i + 1])
    ensures sibs == EmitAt(cur.Keys, level, i) + FoldAt(key, cur, |level|, i, next, sibs).rest
  {
  }

  lemma TopOfTwoBinds(key: Key, level: seq<Digest>, key': Key, cur: map<nat, Digest>, sibs: seq<Digest>)
    requires |level| == 2 && cur != map[] && Below(cur.Keys, |level|)
    requires RootFrom(key', cur, |level|, |level|, sibs) == Some(TopRoot(key, level))
    ensures key' == key && cur == Known(cur.Keys, level) && sibs == Siblings(key, level, cur.Keys)
  {
    TopOfTwoEmits(key, level, cur.Keys);
    TopOfPair(key, level);
    assert FinalRoot(key', cur, sibs) == Some(Root(key, level[0], level[1]));
    hide Siblings, RootFrom, TopRoot;
    var i :| i in cur.Keys;
    assert i == 0 || i == 1;
  }

  /** A root found through a level of more than two nodes is found through the level above. */
  lemma LevelReached(key: Key, level: seq<Digest>, key': Key, cur: map<nat, Digest>, sibs: seq<Digest>)
    requires |level| > 2 && cur != map[] && Below(cur.Keys, |level|)
    requires RootFrom(key', cur, |level|, |level|, sibs) == Some(TopRoot(key, level))
    ensures var f, up := FoldFrom(key', cur, |level|, |level|, 0, map[], sibs), Combine(key, level);
      && f.Folded? && 2 <= |up| == Half(|level|) < |level| && f.next != map[] && f.next.Keys == Parents(cur.Keys)
      && Below(f.next.Keys, |up|) && RootFrom(key', f.next, |up|, |up|, f.rest) == Some(TopRoot(key, up))
  {
    FoldKeys(key', cur, |level|, |level|, 0, map[], sibs);
    ParentsBelow(cur.Keys, |level|);
    assert exists i :: i in cur.Keys && i / 2 in Parents(cur.Keys);
  }

  /** Binding: what folds to the root of `level` under any key was built from `level` itself,
      with exactly the siblings the prover emits. */
  lemma {:induction false} RootBinds(key: Key, level: seq<Digest>, key': Key, cur: map<nat, Digest>, sibs: seq<Digest>)
    requires |level| >= 2 && cur != map[] && Below(cur.Keys, |level|)
    requires RootFrom(key', cur, |level|, |level|, sibs) == Some(TopRoot(key, level))
    ensures key' == key && cur == Known(cur.Keys, level) && sibs == Siblings(key, level, cur.Keys)
    decreases |level|
  {
    if |level| == 2 {
      TopOfTwoBinds(key, level, key', cur, sibs);
    } else {
      LevelReached(key, level, key', cur, sibs);
      hide RootFrom, FoldAt, EmitAt, FoldFrom, Combine, Parents, TopRoot;
      var f := FoldFrom(key', cur, |level|, |level|, 0, map[], sibs);
      RootBinds(key, Combine(key, level), key', f.next, f.rest);
      LevelBinds(key, cur, level, 0, map[], sibs);
    }
  }
}
