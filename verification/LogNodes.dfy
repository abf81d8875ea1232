/** The XML log as a sequence of nodes: which end tag closes which element, which failure subtrees
    are left out, and what the messages of a failure are. */
module LogNodes {
  import opened Basics

  datatype NodeKind = Element | EndElement | Text | Other

  /** A node as the XML reader shows it; ours tells whether it is in the namespace of the session. */
  datatype Node = Node(kind: NodeKind, ours: bool, name: string, isEmpty: bool, depth: nat, value: string)

  predicate IsElement(n: Node, name: string) {
    n.kind.Element? && n.ours && n.name == name
  }

  predicate IsNonEmptyElement(n: Node, name: string) {
    IsElement(n, name) && !n.isEmpty
  }

  predicate IsEndElement(n: Node, name: string) {
    n.kind.EndElement? && n.ours && n.name == name
  }

  predicate Opens(n: Node) {
    n.kind.Element? && !n.isEmpty
  }

  predicate IsFailure(n: Node) {
    IsNonEmptyElement(n, "failure")
  }

  type Log = seq<Node>

  /** The first node from a position on that is not deeper than d, or the end. */
  function FirstNotDeeper(log: Log, from: nat, d: nat): (j: nat)
    requires from <= |log|
    ensures from <= j <= |log|
    decreases |log| - from
  {
    if from == |log| || log[from].depth <= d then from else FirstNotDeeper(log, from + 1, d)
  }

  lemma {:induction false} DeeperBefore(log: Log, from: nat, d: nat)
    requires from <= |log|
    ensures var j := FirstNotDeeper(log, from, d);
            (j < |log| ==> log[j].depth <= d) && forall k | from <= k < j :: log[k].depth > d
    decreases |log| - from
  {
    if from < |log| && log[from].depth > d {
      DeeperBefore(log, from + 1, d);
    }
  }

  lemma {:induction false} FirstNotDeeperIs(log: Log, from: nat, d: nat, j: nat)
    requires from <= j < |log| && log[j].depth <= d && forall k | from <= k < j :: log[k].depth > d
    ensures FirstNotDeeper(log, from, d) == j
    decreases j - from
  {
    if from < j {
      FirstNotDeeperIs(log, from + 1, d, j);
    }
  }

  /** Where the element that opens at i is closed. */
  function CloseOf(log: Log, i: nat): (j: nat)
    requires i < |log|
    ensures i < j <= |log|
  {
    FirstNotDeeper(log, i + 1, log[i].depth)
  }

  /** The node at j is the end tag of the one at i. */
  predicate Closes(log: Log, i: nat, j: nat)
    requires i < |log|
  {
    j < |log| && log[j].kind.EndElement? && log[j].depth == log[i].depth
    && log[j].name == log[i].name && log[j].ours == log[i].ours
  }

  predicate WellFormed(log: Log) {
    forall i {:trigger CloseOf(log, i)} | 0 <= i < |log| && Opens(log[i]) :: Closes(log, i, CloseOf(log, i))
  }

  /** Elements nest. */
  lemma Nested(log: Log, i: nat, k: nat)
    requires WellFormed(log) && i < |log| && Opens(log[i]) && i < k < CloseOf(log, i) && Opens(log[k])
    ensures CloseOf(log, k) < CloseOf(log, i)
  {
    DeeperBefore(log, i + 1, log[i].depth);
    DeeperBefore(log, k + 1, log[k].depth);
    assert Closes(log, i, CloseOf(log, i)) && Closes(log, k, CloseOf(log, k));
  }

  // ----- Leaving out failures -----

  /** Where reading goes on: behind the failures that stand at p. */
  function Skip(log: Log, p: nat): (q: nat)
    requires WellFormed(log) && p <= |log|
    ensures p <= q <= |log| && (q < |log| ==> !IsFailure(log[q]))
    decreases |log| - p
  {
    if p < |log| && IsFailure(log[p]) then
      assert Closes(log, p, CloseOf(log, p));
      Skip(log, CloseOf(log, p) + 1)
    else p
  }

  /** Inside an element, skipping stays inside. */
  lemma {:induction false} SkipStaysInside(log: Log, i: nat, p: nat)
    requires WellFormed(log) && i < |log| && Opens(log[i]) && i < p <= CloseOf(log, i)
    ensures Skip(log, p) <= CloseOf(log, i) < |log|
    decreases |log| - p
  {
    assert Closes(log, i, CloseOf(log, i));
    if p < CloseOf(log, i) && IsFailure(log[p]) {
      Nested(log, i, p);
      SkipStaysInside(log, i, CloseOf(log, p) + 1);
    }
  }

  /** The nodes from one position to another without failure subtrees. */
  function Visible(log: Log, from: nat, to: nat): seq<Node>
    requires WellFormed(log) && to <= |log|
    decreases |log| - from
  {
    if from >= to then []
    else if IsFailure(log[from]) then
      assert Closes(log, from, CloseOf(log, from));
      Visible(log, CloseOf(log, from) + 1, to)
    else [log[from]] + Visible(log, from + 1, to)
  }

  lemma {:induction false} VisibleFromSkip(log: Log, from: nat, to: nat)
    requires WellFormed(log) && from <= to <= |log| && Skip(log, from) <= to
    ensures Visible(log, from, to) == Visible(log, Skip(log, from), to)
    decreases |log| - from
  {
    if from < to && IsFailure(log[from]) {
      assert Closes(log, from, CloseOf(log, from));
      assert CloseOf(log, from) + 1 <= Skip(log, CloseOf(log, from) + 1);
      VisibleFromSkip(log, CloseOf(log, from) + 1, to);
    }
  }

  /** What the element at i holds, without failures. */
  function Content(log: Log, i: nat): seq<Node>
    requires WellFormed(log) && i < |log| && Opens(log[i])
  {
    assert Closes(log, i, CloseOf(log, i));
    Visible(log, i + 1, CloseOf(log, i))
  }

  // ----- The messages of a failure -----

  /** SessionRemoteException: the error, and the further messages if there are any. */
  datatype RemoteException = RemoteException(error: Option<string>, messages: seq<Option<string>>)

  /** The variables of ReadMessages. */
  datatype Messages =
    Messages(error: Option<string>, message: Option<string>, messages: seq<Option<string>>, inMessage: bool)

  const NO_MESSAGES: Messages := Messages(None, None, [], false)

  function Appended(message: Option<string>, value: string): Option<string> {
    Some(if message.None? then value else message.value + value)
  }

  /** One round of ReadMessages. */
  function Step(m: Messages, n: Node): Messages {
    if IsNonEmptyElement(n, "message") then m.(inMessage := true, message := None)
    else if m.inMessage && n.kind.Text? then m.(message := Appended(m.message, n.value))
    else if m.inMessage && IsEndElement(n, "message") then
      (if m.error.None? then m.(error := m.message, message := None, inMessage := false)
       else m.(messages := m.messages + [m.message], message := None, inMessage := false))
    else m
  }

  function Steps(m: Messages, nodes: seq<Node>): Messages
    decreases |nodes|
  {
    if nodes == [] then m else Steps(Step(m, nodes[0]), nodes[1..])
  }

  lemma {:induction false} StepsConcat(m: Messages, a: seq<Node>, b: seq<Node>)
    ensures Steps(m, a + b) == Steps(Steps(m, a), b)
    decreases |a|
  {
    if a == [] {
      assert a + b == b;
    } else {
      assert (a + b)[0] == a[0] && (a + b)[1..] == a[1..] + b;
      StepsConcat(Step(m, a[0]), a[1..], b);
    }
  }

  function ExceptionOf(nodes: seq<Node>): RemoteException {
    var m := Steps(NO_MESSAGES, nodes);
    RemoteException(m.error, m.messages)
  }

  // ----- Which failures are raised -----

  /** The failures from one position to another, each after those inside it. */
  function Failures(log: Log, from: nat, to: nat): seq<RemoteException>
    requires WellFormed(log) && to <= |log|
    decreases |log| - from, 1
  {
    if from >= to then []
    else if IsFailure(log[from]) then
      assert Closes(log, from, CloseOf(log, from));
      FailureAt(log, from) + Failures(log, CloseOf(log, from) + 1, to)
    else Failures(log, from + 1, to)
  }

  /** The failures of one failure subtree. */
  function FailureAt(log: Log, i: nat): seq<RemoteException>
    requires WellFormed(log) && i < |log| && IsFailure(log[i])
    decreases |log| - i, 0
  {
    assert Closes(log, i, CloseOf(log, i));
    Failures(log, i + 1, CloseOf(log, i)) + [ExceptionOf(Content(log, i))]
  }

  lemma {:induction false} FailuresFromSkip(log: Log, from: nat, to: nat)
    requires WellFormed(log) && from <= to <= |log| && Skip(log, from) <= to
    ensures Failures(log, from, to) == Failures(log, from, Skip(log, from)) + Failures(log, Skip(log, from), to)
    decreases |log| - from
  {
    var q := Skip(log, from);
    if from < |log| && IsFailure(log[from]) {
      assert Closes(log, from, CloseOf(log, from));
      var next := CloseOf(log, from) + 1;
      FailuresFromSkip(log, next, to);
      Associate(FailureAt(log, from), Failures(log, next, q), Failures(log, q, to));
    } else {
      AddNothing(Failures(log, q, to));
    }
  }

  // ----- One read that leaves out or throws failures -----

  /** What a read comes to: a node, the end, a failure that is thrown, or another exception. */
  datatype Outcome = Got | AtEnd | Failed(e: RemoteException) | Broken

  /** The read is about to meet a failure that it has to throw. */
  predicate ThrowsAt(log: Log, throwFailures: bool, p: nat) {
    throwFailures && p < |log| && IsFailure(log[p])
  }

  /** The node at which a read stops. */
  function Target(log: Log, throwFailures: bool, p: nat): (q: nat)
    requires WellFormed(log) && p <= |log|
    ensures p <= q <= |log|
  {
    if ThrowsAt(log, throwFailures, p) then
      assert Closes(log, p, CloseOf(log, p));
      CloseOf(log, p)
    else if throwFailures then p
    else Skip(log, p)
  }

  function OutcomeOf(log: Log, throwFailures: bool, p: nat): Outcome
    requires WellFormed(log) && p <= |log|
  {
    if ThrowsAt(log, throwFailures, p) then Failed(ExceptionOf(Content(log, p)))
    else if Target(log, throwFailures, p) < |log| then Got
    else AtEnd
  }

  function RaisedBy(log: Log, throwFailures: bool, p: nat): seq<RemoteException>
    requires WellFormed(log) && p <= |log|
  {
    if ThrowsAt(log, throwFailures, p) then FailureAt(log, p)
    else if throwFailures then []
    else Failures(log, p, Skip(log, p))
  }

  /** Inside an element a read stops inside, and meets the end tag only as a node it gets. */
  lemma TargetInside(log: Log, i: nat, throwFailures: bool, p: nat)
    requires WellFormed(log) && i < |log| && Opens(log[i]) && i < p <= CloseOf(log, i)
    ensures Target(log, throwFailures, p) <= CloseOf(log, i) < |log|
    ensures OutcomeOf(log, throwFailures, p) != AtEnd
    ensures ThrowsAt(log, throwFailures, p) ==> Target(log, throwFailures, p) < CloseOf(log, i)
  {
    SkipStaysInside(log, i, p);
    if ThrowsAt(log, throwFailures, p) {
      assert Closes(log, i, CloseOf(log, i));
      Nested(log, i, p);
    }
  }

  /** The end tag is told by kind, name and depth. */
  lemma EndTagIsTold(log: Log, i: nat, k: nat)
    requires WellFormed(log) && i < |log| && Opens(log[i]) && log[i].ours && i < k <= CloseOf(log, i)
    ensures CloseOf(log, i) < |log|
    ensures IsEndElement(log[k], log[i].name) && log[k].depth == log[i].depth <==> k == CloseOf(log, i)
  {
    assert Closes(log, i, CloseOf(log, i));
    DeeperBefore(log, i + 1, log[i].depth);
  }
}
