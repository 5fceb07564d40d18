/**
  `get_majority_label`: a node's next label. An isolated node keeps its
  label; otherwise the neighbours' labels are tallied, the labels with the
  highest tally become candidates, and `rand() % size` picks one. The
  value `rand()` returned is the parameter `r`. `Vote` builds the
  candidate list as the program does, with its first label pushed twice;
  `FairVote` is the same draw on the corrected list.

  The tally is a hash map whose iteration order is unspecified. `Tally`
  lists labels in the order they first occur among the neighbours; the
  lemmas about the candidate list hold for entries in any order.
 */
module MajorityVote {
  import opened GraphBuilder

  /** One tally entry: a label and the number of neighbours carrying it. */
  datatype Entry = Entry(lbl: int, count: nat)

  function Count(s: seq<int>, l: int): nat {
    multiset(s)[l]
  }

  /** `l` occurs in `ls` and no label occurs in `ls` more often. */
  predicate IsMajority(ls: seq<int>, l: int) {
    l in ls && forall m :: m in ls ==> Count(ls, m) <= Count(ls, l)
  }

  /** The labels of `s`, each once, in order of first occurrence. */
  function Distinct(s: seq<int>): (d: seq<int>)
    ensures forall l :: l in d <==> l in s
    ensures forall i, j :: 0 <= i < j < |d| ==> d[i] != d[j]
  {
    if |s| == 0 then []
    else
      var d := Distinct(s[..|s| - 1]);
      assert s == s[..|s| - 1] + [s[|s| - 1]];
      if s[|s| - 1] in d then d else d + [s[|s| - 1]]
  }

  /** The tally of lines 116-120: every label present, with its number of occurrences. */
  function Tally(s: seq<int>): (es: seq<Entry>)
    ensures forall k :: 0 <= k < |es| ==> es[k].lbl in s && es[k].count == Count(s, es[k].lbl)
    ensures forall l :: l in s ==> exists k :: 0 <= k < |es| && es[k].lbl == l
    ensures |s| > 0 ==> |es| > 0
  {
    var d := Distinct(s);
    var es := seq(|d|, k requires 0 <= k < |d| => Entry(d[k], Count(s, d[k])));
    forall l | l in s
      ensures exists k :: 0 <= k < |es| && es[k].lbl == l
    {
      var k :| 0 <= k < |d| && d[k] == l;
      assert es[k].lbl == l;
    }
    assert |s| > 0 ==> s[0] in d;
    es
  }

  /** No label is tallied twice. */
  lemma TallyDistinct(s: seq<int>)
    ensures var es := Tally(s);
      forall i, j :: 0 <= i < j < |es| ==> es[i].lbl != es[j].lbl
  {
    var d := Distinct(s);
    assert forall k :: 0 <= k < |d| ==> Tally(s)[k].lbl == d[k];
  }

  /** The highest count among the entries (0 for none). */
  function MaxCount(es: seq<Entry>): nat {
    if |es| == 0 then 0
    else if es[0].count >= MaxCount(es[1..]) then es[0].count
    else MaxCount(es[1..])
  }

  /** The labels of the entries whose count is `m`, in entry order. */
  function Tied(es: seq<Entry>, m: nat): seq<int> {
    if |es| == 0 then []
    else (if es[0].count == m then [es[0].lbl] else []) + Tied(es[1..], m)
  }

  lemma {:induction false} MaxCountBounds(es: seq<Entry>)
    ensures forall k :: 0 <= k < |es| ==> es[k].count <= MaxCount(es)
    ensures |es| > 0 ==> exists k :: 0 <= k < |es| && es[k].count == MaxCount(es)
  {
    if |es| > 0 {
      MaxCountBounds(es[1..]);
      assert forall k :: 1 <= k < |es| ==> es[k] == es[1..][k - 1];
      if es[0].count < MaxCount(es[1..]) {
        var k :| 0 <= k < |es[1..]| && es[1..][k].count == MaxCount(es[1..]);
        assert es[k + 1].count == MaxCount(es);
      }
    }
  }

  lemma {:induction false} TiedMembers(es: seq<Entry>, m: nat)
    ensures forall l :: l in Tied(es, m) <==> exists k :: 0 <= k < |es| && es[k].lbl == l && es[k].count == m
  {
    if |es| > 0 {
      TiedMembers(es[1..], m);
      assert forall k :: 1 <= k < |es| ==> es[k] == es[1..][k - 1];
      forall l | exists k :: 0 <= k < |es| && es[k].lbl == l && es[k].count == m
        ensures l in Tied(es, m)
      {
        var k :| 0 <= k < |es| && es[k].lbl == l && es[k].count == m;
        if k > 0 {
          assert es[1..][k - 1] == es[k];
        }
      }
    }
  }

  lemma {:induction false} TiedAbove(es: seq<Entry>, m: nat)
    requires m > MaxCount(es)
    ensures Tied(es, m) == []
  {
    if |es| > 0 {
      TiedAbove(es[1..], m);
    }
  }

  /**
    Lines 124-135 as the authors evidently meant them: a count above the
    running maximum restarts the candidate list with its label, a count equal
    to it appends its label, a lower count is skipped.
   */
  function Candidates(es: seq<Entry>, best: nat, acc: seq<int>): seq<int>
    decreases |es|
  {
    if |es| == 0 then acc
    else if es[0].count > best then Candidates(es[1..], es[0].count, [es[0].lbl])
    else if es[0].count == best then Candidates(es[1..], best, acc + [es[0].lbl])
    else Candidates(es[1..], best, acc)
  }

  /**
    Lines 124-135 as written: after a count sets a new maximum, the
    following equality test also holds, so that label is pushed twice.
   */
  function CandidatesAsWritten(es: seq<Entry>, best: nat, acc: seq<int>): seq<int>
    decreases |es|
  {
    if |es| == 0 then acc
    else
      var e := es[0];
      var best1 := if e.count > best then e.count else best;
      var acc1 := if e.count > best then [e.lbl] else acc;
      var acc2 := if e.count == best1 then acc1 + [e.lbl] else acc1;
      CandidatesAsWritten(es[1..], best1, acc2)
  }

  /** From any running state, the corrected scan ends with exactly the labels of highest count. */
  lemma {:induction false} CandidatesFrom(es: seq<Entry>, best: nat, acc: seq<int>)
    ensures Candidates(es, best, acc) ==
      if MaxCount(es) > best then Tied(es, MaxCount(es))
      else if MaxCount(es) == best then acc + Tied(es, best)
      else acc
  {
    if |es| > 0 {
      var e, rest := es[0], es[1..];
      var m' := MaxCount(rest);
      if e.count > best {
        CandidatesFrom(rest, e.count, [e.lbl]);
        if m' < e.count {
          TiedAbove(rest, e.count);
        }
      } else if e.count == best {
        CandidatesFrom(rest, best, acc + [e.lbl]);
        if m' < best {
          TiedAbove(rest, best);
        }
      } else {
        CandidatesFrom(rest, best, acc);
      }
    }
  }

  /** The corrected candidate list: every label of highest count, each once. */
  lemma CandidatesAreTied(es: seq<Entry>)
    ensures Candidates(es, 0, []) == Tied(es, MaxCount(es))
    ensures forall l :: l in Candidates(es, 0, []) <==>
      exists k :: 0 <= k < |es| && es[k].lbl == l && es[k].count == MaxCount(es)
    ensures |es| > 0 ==> |Candidates(es, 0, [])| > 0
  {
    CandidatesFrom(es, 0, []);
    TiedMembers(es, MaxCount(es));
    MaxCountBounds(es);
  }

  /** Distinct labels in the entries give a candidate list without repeats. */
  lemma {:induction false} TiedDistinct(es: seq<Entry>, m: nat)
    requires forall i, j :: 0 <= i < j < |es| ==> es[i].lbl != es[j].lbl
    ensures forall i, j :: 0 <= i < j < |Tied(es, m)| ==> Tied(es, m)[i] != Tied(es, m)[j]
  {
    if |es| > 0 {
      var rest := es[1..];
      TiedDistinct(rest, m);
      TiedMembers(rest, m);
      assert es[0].lbl !in Tied(rest, m);
    }
  }

  /**
    What the random draw needs to be a uniform choice among the tied labels:
    the corrected list holds every neighbour label of highest count exactly
    once, and nothing else.
   */
  lemma CandidatesUnique(ls: seq<int>)
    requires |ls| > 0
    ensures var c := Candidates(Tally(ls), 0, []);
      && |c| > 0
      && (forall l :: l in c <==> IsMajority(ls, l))
      && (forall i, j :: 0 <= i < j < |c| ==> c[i] != c[j])
  {
    var es := Tally(ls);
    var c := Candidates(es, 0, []);
    CandidatesAreTied(es);
    MaxCountBounds(es);
    TallyDistinct(ls);
    TiedDistinct(es, MaxCount(es));
    forall l | IsMajority(ls, l)
      ensures l in c
    {
      var k0 :| 0 <= k0 < |es| && es[k0].count == MaxCount(es);
      var kl :| 0 <= kl < |es| && es[kl].lbl == l;
      assert es[kl].count == MaxCount(es);
    }
    forall l | l in c
      ensures IsMajority(ls, l)
    {
      forall m | m in ls
        ensures Count(ls, m) <= Count(ls, l)
      {
        var km :| 0 <= km < |es| && es[km].lbl == m;
      }
    }
  }

  lemma {:induction false} AsWrittenFrom(es: seq<Entry>, best: nat, acc: seq<int>)
    requires |acc| > 0
    ensures |Candidates(es, best, acc)| > 0
    ensures CandidatesAsWritten(es, best, [acc[0]] + acc) ==
      [Candidates(es, best, acc)[0]] + Candidates(es, best, acc)
  {
    if |es| > 0 {
      var e, rest := es[0], es[1..];
      if e.count > best {
        AsWrittenFrom(rest, e.count, [e.lbl]);
      } else if e.count == best {
        AsWrittenFrom(rest, best, acc + [e.lbl]);
        assert [acc[0]] + acc + [e.lbl] == [(acc + [e.lbl])[0]] + (acc + [e.lbl]);
      } else {
        AsWrittenFrom(rest, best, acc);
      }
    }
  }

  /**
    The list labelprop.c builds is the corrected list with its first label
    repeated in front: it is never of size one, it offers the same labels,
    and that first label is twice as likely to be drawn as any other.
   */
  lemma AsWrittenRepeatsFirst(es: seq<Entry>)
    requires |es| > 0 && es[0].count > 0
    ensures var c := Candidates(es, 0, []);
      && |c| > 0
      && CandidatesAsWritten(es, 0, []) == [c[0]] + c
      && |CandidatesAsWritten(es, 0, [])| >= 2
      && forall l :: l in CandidatesAsWritten(es, 0, []) <==> l in c
  {
    var e, rest := es[0], es[1..];
    AsWrittenFrom(rest, e.count, [e.lbl]);
  }

  /** Two labels tied at two votes each, tallied in the order 1, 2: label 1 fills two of three slots. */
  lemma TieIsNotUniform()
    ensures CandidatesAsWritten([Entry(1, 2), Entry(2, 2)], 0, []) == [1, 1, 2]
    ensures Candidates([Entry(1, 2), Entry(2, 2)], 0, []) == [1, 2]
  {
    var es := [Entry(1, 2), Entry(2, 2)];
    assert es[1..] == [Entry(2, 2)];
    assert es[1..][1..] == [];
  }

  /**
    The list of lines 124-135 as written, built from the tally of `ls`: it
    holds at least two slots, and its labels are exactly the labels of
    highest count.
   */
  lemma AsWrittenMajority(ls: seq<int>)
    requires |ls| > 0
    ensures var aw := CandidatesAsWritten(Tally(ls), 0, []);
      && |aw| >= 2
      && forall l :: l in aw <==> IsMajority(ls, l)
  {
    var es := Tally(ls);
    assert es[0].lbl in multiset(ls);
    AsWrittenRepeatsFirst(es);
    CandidatesUnique(ls);
  }

  /**
    The same for a tally listed in any order, as the hash map of line 116
    may list it: the list of lines 124-135 has at least two slots, holds
    exactly the labels of highest count, and so every draw picks one.
   */
  lemma AsWrittenMajorityAnyOrder(ls: seq<int>, es: seq<Entry>, r: nat)
    requires |ls| > 0
    requires forall k :: 0 <= k < |es| ==> es[k].lbl in ls && es[k].count == Count(ls, es[k].lbl)
    requires forall l :: l in ls ==> exists k :: 0 <= k < |es| && es[k].lbl == l
    ensures var aw := CandidatesAsWritten(es, 0, []);
      && |aw| >= 2
      && (forall l :: l in aw <==> IsMajority(ls, l))
      && IsMajority(ls, aw[r % |aw|])
  {
    assert ls[0] in ls;
    var k0 :| 0 <= k0 < |es| && es[k0].lbl == ls[0];
    assert es[0].lbl in ls;
    assert es[0].lbl in multiset(ls);
    AsWrittenRepeatsFirst(es);
    CandidatesAreTied(es);
    MaxCountBounds(es);
    var aw := CandidatesAsWritten(es, 0, []);
    forall l | IsMajority(ls, l)
      ensures l in aw
    {
      var km :| 0 <= km < |es| && es[km].count == MaxCount(es);
      var kl :| 0 <= kl < |es| && es[kl].lbl == l;
      assert es[kl].count == MaxCount(es);
    }
    forall l | l in aw
      ensures IsMajority(ls, l)
    {
      forall m | m in ls
        ensures Count(ls, m) <= Count(ls, l)
      {
        var km :| 0 <= km < |es| && es[km].lbl == m;
      }
    }
    assert aw[r % |aw|] in aw;
  }

  /**
    Lines 116-139 for a node with at least one neighbour, as written: tally
    the neighbour labels `ls`, build the candidate list of lines 124-135,
    and return the label at `r % size`, where `r` is the value `rand()`
    returned. The shortcut of line 136 for a list of one label returns the
    label the draw would give; with the list as written it never applies.
   */
  function Vote(ls: seq<int>, r: nat): (l: int)
    requires |ls| > 0
    ensures IsMajority(ls, l)
  {
    var cands := CandidatesAsWritten(Tally(ls), 0, []);
    AsWrittenMajority(ls);
    cands[r % |cands|]
  }

  /** Every label of highest count is the outcome of some draw: no majority label is ruled out. */
  lemma VoteReachesEveryMajority(ls: seq<int>, l: int)
    requires |ls| > 0 && IsMajority(ls, l)
    ensures exists r: nat :: Vote(ls, r) == l
  {
    var cands := CandidatesAsWritten(Tally(ls), 0, []);
    AsWrittenMajority(ls);
    var i :| 0 <= i < |cands| && cands[i] == l;
    assert i % |cands| == i;
    assert Vote(ls, i) == l;
  }

  /**
    The draw as the comment on line 139 intends it: the same draw indexes
    the corrected list, in which every label of highest count has one slot.
   */
  function FairVote(ls: seq<int>, r: nat): (l: int)
    requires |ls| > 0
    ensures IsMajority(ls, l)
  {
    var cands := Candidates(Tally(ls), 0, []);
    CandidatesUnique(ls);
    cands[r % |cands|]
  }

  /**
    The corrected draw is uniform: of the draws `0 .. size - 1`, exactly one
    gives each label of highest count, and every draw gives one of them.
   */
  lemma FairVoteOneSlotEach(ls: seq<int>, l: int)
    requires |ls| > 0 && IsMajority(ls, l)
    ensures var c := Candidates(Tally(ls), 0, []);
      exists i :: 0 <= i < |c| && FairVote(ls, i) == l &&
        forall j :: 0 <= j < |c| && j != i ==> FairVote(ls, j) != l
  {
    var c := Candidates(Tally(ls), 0, []);
    CandidatesUnique(ls);
    var i :| 0 <= i < |c| && c[i] == l;
    FairVoteSlot(ls, i);
    forall j | 0 <= j < |c| && j != i
      ensures FairVote(ls, j) != l
    {
      FairVoteSlot(ls, j);
    }
  }

  /** A draw below the size of the corrected list picks the label in that slot. */
  lemma FairVoteSlot(ls: seq<int>, j: nat)
    requires |ls| > 0 && j < |Candidates(Tally(ls), 0, [])|
    ensures FairVote(ls, j) == Candidates(Tally(ls), 0, [])[j]
  {
    assert j % |Candidates(Tally(ls), 0, [])| == j;
  }

  lemma DistinctTie()
    ensures Distinct([1, 1, 2, 2]) == [1, 2]
  {
    assert [1][..0] == [];
    assert [1, 1][..1] == [1];
    assert [1, 1, 2][..2] == [1, 1];
    assert [1, 1, 2, 2][..3] == [1, 1, 2];
  }

  /** The tally of `{1, 1, 2, 2}` lists label 1 first, then label 2, each with two votes. */
  lemma TallyTie()
    ensures Tally([1, 1, 2, 2]) == [Entry(1, 2), Entry(2, 2)]
  {
    var ls := [1, 1, 2, 2];
    DistinctTie();
    assert multiset(ls)[1] == 2 && multiset(ls)[2] == 2;
  }

  /**
    Neighbour labels `{1, 1, 2, 2}` tallied in the order 1, 2: of the draws
    0, 1, 2 the program's list `[1, 1, 2]` gives label 1 twice and label 2
    once, where the corrected list `[1, 2]` gives each label once in the
    draws 0, 1.
   */
  lemma VoteTieAsWritten()
    ensures Vote([1, 1, 2, 2], 0) == 1 && Vote([1, 1, 2, 2], 1) == 1 && Vote([1, 1, 2, 2], 2) == 2
    ensures FairVote([1, 1, 2, 2], 0) == 1 && FairVote([1, 1, 2, 2], 1) == 2
  {
    TallyTie();
    TieIsNotUniform();
  }

  /** Neighbour labels `{1, 1, 2}`: label 1 whatever the draw. */
  lemma VoteClearMajority(r: nat)
    ensures Vote([1, 1, 2], r) == 1
  {
    var ls := [1, 1, 2];
    assert multiset(ls)[1] == 2 && multiset(ls)[2] == 1;
    var l := Vote(ls, r);
    assert l in ls;
  }

  /** Neighbour labels `{1, 1, 2, 2}`: only 1 or 2, and each for some draw. */
  lemma VoteTie(r: nat)
    ensures Vote([1, 1, 2, 2], r) in {1, 2}
    ensures exists r1: nat, r2: nat :: Vote([1, 1, 2, 2], r1) == 1 && Vote([1, 1, 2, 2], r2) == 2
  {
    var ls := [1, 1, 2, 2];
    assert multiset(ls)[1] == 2 && multiset(ls)[2] == 2;
    VoteReachesEveryMajority(ls, 1);
    VoteReachesEveryMajority(ls, 2);
  }

  /** The labels of the neighbours listed in `nbrs`, in list order. */
  function NeighborLabels(g: Nodes, nbrs: seq<nat>): (ls: seq<int>)
    requires forall k :: 0 <= k < |nbrs| ==> nbrs[k] < |g|
    ensures |ls| == |nbrs|
    ensures forall k :: 0 <= k < |nbrs| ==> ls[k] == g[nbrs[k]].lbl
  {
    seq(|nbrs|, k requires 0 <= k < |nbrs| => g[nbrs[k]].lbl)
  }

  /**
    `get_majority_label(node)`: a node without neighbours keeps its label;
    any other node takes a neighbour label of highest count.
   */
  function MajorityLabel(g: Nodes, v: nat, r: nat): (l: int)
    requires NodeOk(g, v)
    ensures g[v].numNeighbors == 0 ==> l == g[v].lbl
    ensures g[v].numNeighbors != 0 ==>
      && (exists k :: 0 <= k < |g[v].neighbors| && g[g[v].neighbors[k]].lbl == l)
      && IsMajority(NeighborLabels(g, g[v].neighbors), l)
  {
    if g[v].numNeighbors == 0 then g[v].lbl
    else
      var ls := NeighborLabels(g, g[v].neighbors);
      var l := Vote(ls, r);
      assert exists k :: 0 <= k < |ls| && ls[k] == l;
      l
  }
}
