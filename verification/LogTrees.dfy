/** The log as a tree: writing a tree out gives well-formed nodes, and reading them while leaving
    out failures gives what the tree without its failures is written as. */
module LogTrees {
  import opened Basics
  import opened LogNodes

  datatype LeafKind = EmptyElement | Characters | Comment

  /** A row of trees: the first one, and the rest of the row. */
  datatype Forest =
    | Nothing
    | Leaf(kind: LeafKind, ours: bool, name: string, value: string, rest: Forest)
    | Branch(ours: bool, name: string, inner: Forest, rest: Forest)

  function LeafNode(f: Forest, d: nat): Node
    requires f.Leaf?
  {
    match f.kind
    case EmptyElement => Node(Element, f.ours, f.name, true, d, f.value)
    case Characters => Node(Text, f.ours, f.name, false, d, f.value)
    case Comment => Node(Other, f.ours, f.name, false, d, f.value)
  }

  function StartTag(f: Forest, d: nat): Node
    requires f.Branch?
  {
    Node(Element, f.ours, f.name, false, d, [])
  }

  function EndTag(f: Forest, d: nat): Node
    requires f.Branch?
  {
    Node(EndElement, f.ours, f.name, false, d, [])
  }

  function Flatten(f: Forest, d: nat): Log
    decreases f
  {
    match f
    case Nothing => []
    case Leaf(_, _, _, _, rest) => [LeafNode(f, d)] + Flatten(rest, d)
    case Branch(_, _, inner, rest) => [StartTag(f, d)] + Flatten(inner, d + 1) + [EndTag(f, d)] + Flatten(rest, d)
  }

  /** The trees without failures, at any depth. */
  function Pruned(f: Forest): Forest {
    match f
    case Nothing => Nothing
    case Leaf(kind, ours, name, value, rest) => Leaf(kind, ours, name, value, Pruned(rest))
    case Branch(ours, name, inner, rest) =>
      if ours && name == "failure" then Pruned(rest) else Branch(ours, name, Pruned(inner), Pruned(rest))
  }

  /** The nodes s stand in the log from o on. */
  predicate Stands(log: Log, o: nat, s: Log) {
    o + |s| <= |log| && forall k {:trigger s[k]} | 0 <= k < |s| :: s[k] == log[o + k]
  }

  lemma StandsParts(log: Log, o: nat, a: Log, b: Log)
    requires Stands(log, o, a + b)
    ensures Stands(log, o, a) && Stands(log, o + |a|, b)
  {
    forall k | 0 <= k < |a| ensures a[k] == log[o + k] {
      assert a[k] == (a + b)[k];
    }
    forall k | 0 <= k < |b| ensures b[k] == log[o + |a| + k] {
      assert b[k] == (a + b)[|a| + k];
    }
  }

  lemma BranchStands(log: Log, o: nat, f: Forest, d: nat)
    requires f.Branch? && Stands(log, o, Flatten(f, d))
    ensures var m := o + 1 + |Flatten(f.inner, d + 1)|;
            && m < |log| && log[o] == StartTag(f, d) && log[m] == EndTag(f, d)
            && Stands(log, o + 1, Flatten(f.inner, d + 1)) && Stands(log, m + 1, Flatten(f.rest, d))
            && m + 1 + |Flatten(f.rest, d)| == o + |Flatten(f, d)|
  {
    var a, b, c, e := [StartTag(f, d)], Flatten(f.inner, d + 1), [EndTag(f, d)], Flatten(f.rest, d);
    StandsParts(log, o, a + b + c, e);
    StandsParts(log, o, a + b, c);
    StandsParts(log, o, a, b);
    assert a[0] == log[o] && c[0] == log[o + 1 + |b|];
  }

  lemma LeafStands(log: Log, o: nat, f: Forest, d: nat)
    requires f.Leaf? && Stands(log, o, Flatten(f, d))
    ensures o < |log| && log[o] == LeafNode(f, d) && Stands(log, o + 1, Flatten(f.rest, d))
    ensures o + 1 + |Flatten(f.rest, d)| == o + |Flatten(f, d)|
  {
    StandsParts(log, o, [LeafNode(f, d)], Flatten(f.rest, d));
    assert [LeafNode(f, d)][0] == log[o];
  }

  /** Nothing from lo to hi is less deep than d, and what opens there closes there. */
  ghost predicate Balanced(log: Log, lo: nat, hi: nat, d: nat) {
    && hi <= |log| && (forall i | lo <= i < hi :: log[i].depth >= d)
    && forall i {:trigger CloseOf(log, i)} | lo <= i < hi && Opens(log[i]) ::
         CloseOf(log, i) < hi && Closes(log, i, CloseOf(log, i))
  }

  lemma BranchIsBalanced(log: Log, o: nat, m: nat, f: Forest, d: nat)
    requires f.Branch? && Stands(log, o, Flatten(f, d)) && m == o + 1 + |Flatten(f.inner, d + 1)|
    requires Balanced(log, o + 1, m, d + 1) && Balanced(log, m + 1, o + |Flatten(f, d)|, d)
    ensures Balanced(log, o, o + |Flatten(f, d)|, d)
  {
    BranchStands(log, o, f, d);
    FirstNotDeeperIs(log, o + 1, d, m);
  }

  lemma {:induction false} FlattenIsBalanced(log: Log, o: nat, f: Forest, d: nat)
    requires Stands(log, o, Flatten(f, d))
    ensures Balanced(log, o, o + |Flatten(f, d)|, d)
    decreases f
  {
    if f.Leaf? {
      LeafStands(log, o, f, d);
      FlattenIsBalanced(log, o + 1, f.rest, d);
    } else if f.Branch? {
      var m := o + 1 + |Flatten(f.inner, d + 1)|;
      BranchStands(log, o, f, d);
      FlattenIsBalanced(log, o + 1, f.inner, d + 1);
      FlattenIsBalanced(log, m + 1, f.rest, d);
      BranchIsBalanced(log, o, m, f, d);
    }
  }

  /** What is written out is well-formed. */
  lemma FlattenIsWellFormed(f: Forest)
    ensures WellFormed(Flatten(f, 0))
  {
    var log := Flatten(f, 0);
    FlattenIsBalanced(log, 0, f, 0);
  }

  /** Reading to a place where nothing is open can stop there. */
  lemma {:induction false} VisibleSplits(log: Log, from: nat, mid: nat, to: nat)
    requires WellFormed(log) && from <= mid <= to <= |log|
    requires forall i {:trigger CloseOf(log, i)} | from <= i < mid && Opens(log[i]) :: CloseOf(log, i) < mid
    ensures Visible(log, from, to) == Visible(log, from, mid) + Visible(log, mid, to)
    decreases |log| - from
  {
    if from == mid {
      assert [] + Visible(log, mid, to) == Visible(log, mid, to);
    } else if IsFailure(log[from]) {
      VisibleSplits(log, CloseOf(log, from) + 1, mid, to);
    } else {
      VisibleSplits(log, from + 1, mid, to);
      Associate([log[from]], Visible(log, from + 1, mid), Visible(log, mid, to));
    }
  }

  /** The branch at o is closed behind its inner trees, and nothing in them is open there. */
  lemma BranchCloses(log: Log, o: nat, f: Forest, d: nat)
    requires f.Branch? && Stands(log, o, Flatten(f, d))
    ensures var m := o + 1 + |Flatten(f.inner, d + 1)|;
            && CloseOf(log, o) == m < o + |Flatten(f, d)| <= |log|
            && forall i {:trigger CloseOf(log, i)} | o < i < m && Opens(log[i]) :: CloseOf(log, i) < m
  {
    BranchStands(log, o, f, d);
    FlattenIsBalanced(log, o + 1, f.inner, d + 1);
    FirstNotDeeperIs(log, o + 1, d, o + 1 + |Flatten(f.inner, d + 1)|);
  }

  lemma PlainBranchFlattens(f: Forest, d: nat)
    requires f.Branch? && !(f.ours && f.name == "failure")
    ensures Flatten(Pruned(f), d)
            == [StartTag(f, d)] + (Flatten(Pruned(f.inner), d + 1) + ([EndTag(f, d)] + Flatten(Pruned(f.rest), d)))
  {
    var a, b := Flatten(Pruned(f.inner), d + 1), Flatten(Pruned(f.rest), d);
    Associate([StartTag(f, d)] + a, [EndTag(f, d)], b);
    Associate([StartTag(f, d)], a, [EndTag(f, d)] + b);
  }

  lemma VisibleOfFailure(log: Log, o: nat, end: nat)
    requires WellFormed(log) && o < end <= |log| && IsFailure(log[o])
    ensures CloseOf(log, o) < |log| && Visible(log, o, end) == Visible(log, CloseOf(log, o) + 1, end)
  {
    assert Closes(log, o, CloseOf(log, o));
  }

  lemma VisibleOfBranch(log: Log, o: nat, m: nat, end: nat)
    requires WellFormed(log) && o < m < end <= |log| && !IsFailure(log[o]) && log[m].kind.EndElement?
    requires forall i {:trigger CloseOf(log, i)} | o < i < m && Opens(log[i]) :: CloseOf(log, i) < m
    ensures Visible(log, o, end) == [log[o]] + (Visible(log, o + 1, m) + ([log[m]] + Visible(log, m + 1, end)))
  {
    VisibleSplits(log, o + 1, m, end);
  }

  /** A branch is visible as its pruned self if its parts are. */
  lemma PrunedBranch(log: Log, o: nat, m: nat, end: nat, f: Forest, d: nat)
    requires WellFormed(log) && f.Branch? && o < m < end <= |log|
    requires log[o] == StartTag(f, d) && log[m] == EndTag(f, d) && CloseOf(log, o) == m
    requires forall i {:trigger CloseOf(log, i)} | o < i < m && Opens(log[i]) :: CloseOf(log, i) < m
    requires Visible(log, o + 1, m) == Flatten(Pruned(f.inner), d + 1)
    requires Visible(log, m + 1, end) == Flatten(Pruned(f.rest), d)
    ensures Visible(log, o, end) == Flatten(Pruned(f), d)
  {
    if IsFailure(log[o]) {
      VisibleOfFailure(log, o, end);
    } else {
      VisibleOfBranch(log, o, m, end);
      PlainBranchFlattens(f, d);
    }
  }

  lemma {:induction false} PrunedBranchStands(log: Log, o: nat, f: Forest, d: nat)
    requires WellFormed(log) && f.Branch? && Stands(log, o, Flatten(f, d))
    ensures Visible(log, o, o + |Flatten(f, d)|) == Flatten(Pruned(f), d)
    decreases f, 0
  {
    var m := o + 1 + |Flatten(f.inner, d + 1)|;
    BranchStands(log, o, f, d);
    BranchCloses(log, o, f, d);
    VisibleIsPruned(log, o + 1, f.inner, d + 1);
    VisibleIsPruned(log, m + 1, f.rest, d);
    PrunedBranch(log, o, m, o + |Flatten(f, d)|, f, d);
  }

  lemma {:induction false} PrunedLeafStands(log: Log, o: nat, f: Forest, d: nat)
    requires WellFormed(log) && f.Leaf? && Stands(log, o, Flatten(f, d))
    ensures Visible(log, o, o + |Flatten(f, d)|) == Flatten(Pruned(f), d)
    decreases f, 0
  {
    LeafStands(log, o, f, d);
    VisibleIsPruned(log, o + 1, f.rest, d);
  }

  /** Wherever trees stand in a log, what is visible of them is the trees without failures. */
  lemma {:induction false} VisibleIsPruned(log: Log, o: nat, f: Forest, d: nat)
    requires WellFormed(log) && Stands(log, o, Flatten(f, d))
    ensures Visible(log, o, o + |Flatten(f, d)|) == Flatten(Pruned(f), d)
    decreases f, 1
  {
    if f.Leaf? {
      PrunedLeafStands(log, o, f, d);
    } else if f.Branch? {
      PrunedBranchStands(log, o, f, d);
    }
  }

  /** The content of an element is its trees without failures. */
  lemma ContentIsPruned(log: Log, o: nat, f: Forest, d: nat)
    requires WellFormed(log) && f.Branch? && Stands(log, o, Flatten(f, d))
    ensures o < |log| && Opens(log[o]) && Content(log, o) == Flatten(Pruned(f.inner), d + 1)
  {
    BranchStands(log, o, f, d);
    BranchCloses(log, o, f, d);
    VisibleIsPruned(log, o + 1, f.inner, d + 1);
  }

  // ----- Which failures are raised -----

  /** The failures among the trees: those inside a failure before it, and each with what its own
      messages say, not those of failures inside it. */
  function Raised(f: Forest, d: nat): seq<RemoteException>
    decreases f
  {
    match f
    case Nothing => []
    case Leaf(_, _, _, _, rest) => Raised(rest, d)
    case Branch(ours, name, inner, rest) =>
      Raised(inner, d + 1)
      + (if ours && name == "failure" then [ExceptionOf(Flatten(Pruned(inner), d + 1))] else [])
      + Raised(rest, d)
  }

  lemma {:induction false} FailuresSplit(log: Log, from: nat, mid: nat, to: nat)
    requires WellFormed(log) && from <= mid <= to <= |log|
    requires forall i {:trigger CloseOf(log, i)} | from <= i < mid && Opens(log[i]) :: CloseOf(log, i) < mid
    ensures Failures(log, from, to) == Failures(log, from, mid) + Failures(log, mid, to)
    decreases |log| - from
  {
    if from == mid {
      assert [] + Failures(log, mid, to) == Failures(log, mid, to);
    } else if IsFailure(log[from]) {
      var next := CloseOf(log, from) + 1;
      FailuresSplit(log, next, mid, to);
      Associate(FailureAt(log, from), Failures(log, next, mid), Failures(log, mid, to));
    } else {
      FailuresSplit(log, from + 1, mid, to);
    }
  }

  lemma RaisedBranch(log: Log, o: nat, m: nat, end: nat, f: Forest, d: nat)
    requires WellFormed(log) && f.Branch? && o < m < end <= |log| && Stands(log, o, Flatten(f, d))
    requires log[o] == StartTag(f, d) && log[m] == EndTag(f, d) && CloseOf(log, o) == m
    requires forall i {:trigger CloseOf(log, i)} | o < i < m && Opens(log[i]) :: CloseOf(log, i) < m
    requires Failures(log, o + 1, m) == Raised(f.inner, d + 1) && Failures(log, m + 1, end) == Raised(f.rest, d)
    ensures Failures(log, o, end) == Raised(f, d)
  {
    if IsFailure(log[o]) {
      ContentIsPruned(log, o, f, d);
    } else {
      FailuresSplit(log, o + 1, m, end);
      AddNothing(Raised(f.inner, d + 1));
    }
  }

  /** Wherever trees stand in a log, reading over them raises just their failures, in this order. */
  lemma {:induction false} FailuresAreRaised(log: Log, o: nat, f: Forest, d: nat)
    requires WellFormed(log) && Stands(log, o, Flatten(f, d))
    ensures Failures(log, o, o + |Flatten(f, d)|) == Raised(f, d)
    decreases f
  {
    if f.Leaf? {
      LeafStands(log, o, f, d);
      FailuresAreRaised(log, o + 1, f.rest, d);
    } else if f.Branch? {
      var m := o + 1 + |Flatten(f.inner, d + 1)|;
      BranchStands(log, o, f, d);
      BranchCloses(log, o, f, d);
      FailuresAreRaised(log, o + 1, f.inner, d + 1);
      FailuresAreRaised(log, m + 1, f.rest, d);
      RaisedBranch(log, o, m, o + |Flatten(f, d)|, f, d);
    }
  }

  // ----- What a read comes to -----

  /** A read that leaves out failures stops at the first node that is visible, and the next one goes
      on behind it; if there is none, it meets the end. */
  lemma ReadsWhatIsVisible(log: Log, p: nat)
    requires WellFormed(log) && p <= |log|
    ensures var seen, q := Visible(log, p, |log|), Target(log, false, p);
            if seen == [] then OutcomeOf(log, false, p) == AtEnd && q == |log|
            else
              && OutcomeOf(log, false, p) == Got && q < |log|
              && seen == [log[q]] + Visible(log, q + 1, |log|)
    ensures RaisedBy(log, false, p) + Failures(log, Target(log, false, p), |log|) == Failures(log, p, |log|)
  {
    VisibleFromSkip(log, p, |log|);
    FailuresFromSkip(log, p, |log|);
  }

  /** A read that throws failures stops at the next node, whatever it is; it throws where a failure
      starts, and leaves the cursor at its end tag. */
  lemma ThrowsWhatStarts(log: Log, p: nat)
    requires WellFormed(log) && p < |log|
    ensures if log[p].kind == Element && !log[p].isEmpty && log[p].ours && log[p].name == "failure" then
              && OutcomeOf(log, true, p) == Failed(ExceptionOf(Content(log, p)))
              && Closes(log, p, Target(log, true, p)) && RaisedBy(log, true, p) == FailureAt(log, p)
            else OutcomeOf(log, true, p) == Got && Target(log, true, p) == p && RaisedBy(log, true, p) == []
    ensures OutcomeOf(log, true, |log|) == AtEnd && RaisedBy(log, true, |log|) == []
  {
    if IsFailure(log[p]) {
      assert Closes(log, p, CloseOf(log, p));
    }
  }
}
