/** What ReadMessages makes of the content of a failure: messages anywhere among other nodes. */
module LogMessages {
  import opened Basics
  import opened LogNodes

  // ----- Only tags and text count -----

  predicate IsMessageTag(n: Node) {
    && n.ours && n.name == "message"
    && ((n.kind == Element && !n.isEmpty) || n.kind == EndElement)
  }

  /** The nodes that are tags of messages, or text. */
  function Relevant(nodes: seq<Node>): seq<Node> {
    if nodes == [] then []
    else (if IsMessageTag(nodes[0]) || nodes[0].kind == Text then [nodes[0]] else []) + Relevant(nodes[1..])
  }

  lemma {:induction false} RelevantSteps(m: Messages, nodes: seq<Node>)
    ensures Steps(m, nodes) == Steps(m, Relevant(nodes))
    decreases |nodes|
  {
    if nodes != [] {
      RelevantSteps(Step(m, nodes[0]), nodes[1..]);
      if IsMessageTag(nodes[0]) || nodes[0].kind == Text {
        assert Relevant(nodes)[1..] == Relevant(nodes[1..]);
      } else {
        AddNothing(Relevant(nodes[1..]));
      }
    }
  }

  /** White space, comments and other elements make no difference, wherever they stand. */
  lemma OnlyRelevantCounts(nodes: seq<Node>)
    ensures ExceptionOf(nodes) == ExceptionOf(Relevant(nodes))
  {
    RelevantSteps(NO_MESSAGES, nodes);
  }

  // ----- Messages and their texts -----

  predicate NoTags(nodes: seq<Node>) {
    forall i | 0 <= i < |nodes| :: !IsMessageTag(nodes[i])
  }

  /** A message as it is logged, and what stands behind it. */
  datatype Logged = Logged(open: Node, inside: seq<Node>, close: Node, behind: seq<Node>)

  predicate IsLogged(l: Logged) {
    && IsMessageTag(l.open) && l.open.kind == Element && NoTags(l.inside)
    && IsMessageTag(l.close) && l.close.kind == EndElement && NoTags(l.behind)
  }

  function NodesOf(l: Logged): seq<Node> {
    [l.open] + (l.inside + ([l.close] + l.behind))
  }

  function AllNodes(ls: seq<Logged>): seq<Node> {
    if ls == [] then [] else AllNodes(ls[..|ls| - 1]) + NodesOf(ls[|ls| - 1])
  }

  /** The text nodes. */
  function Texts(nodes: seq<Node>): seq<string> {
    if nodes == [] then []
    else Texts(nodes[..|nodes| - 1]) + (if nodes[|nodes| - 1].kind == Text then [nodes[|nodes| - 1].value] else [])
  }

  function Joined(texts: seq<string>): string {
    if texts == [] then [] else Joined(texts[..|texts| - 1]) + texts[|texts| - 1]
  }

  /** All text of a message, or nothing if there is no text node in it. */
  function MessageOf(texts: seq<string>): Option<string> {
    if texts == [] then None else Some(Joined(texts))
  }

  function MessagesOf(ls: seq<Logged>): (ms: seq<Option<string>>)
    ensures |ms| == |ls|
  {
    seq(|ls|, i requires 0 <= i < |ls| => MessageOf(Texts(ls[i].inside)))
  }

  lemma MessagesOfSnoc(init: seq<Logged>, last: Logged)
    ensures MessagesOf(init + [last]) == MessagesOf(init) + [MessageOf(Texts(last.inside))]
  {
  }

  lemma MessageOfSnoc(texts: seq<string>, t: string)
    ensures MessageOf(texts + [t]) == Some(match MessageOf(texts) case None => t case Some(m) => m + t)
  {
    assert (texts + [t])[..|texts|] == texts;
    assert Joined([]) + t == t;
  }

  lemma {:induction false} InsideSteps(m: Messages, nodes: seq<Node>)
    requires m.inMessage && m.message == None && NoTags(nodes)
    ensures Steps(m, nodes) == m.(message := MessageOf(Texts(nodes)))
    decreases |nodes|
  {
    if nodes != [] {
      var init, last := nodes[..|nodes| - 1], nodes[|nodes| - 1];
      InsideSteps(m, init);
      assert nodes == init + [last];
      StepsConcat(m, init, [last]);
      assert !IsMessageTag(last);
      if last.kind == Text {
        MessageOfSnoc(Texts(init), last.value);
      } else {
        AddNothing(Texts(init));
      }
    }
  }

  lemma {:induction false} OutsideSteps(m: Messages, nodes: seq<Node>)
    requires !m.inMessage && NoTags(nodes)
    ensures Steps(m, nodes) == m
    decreases |nodes|
  {
    if nodes != [] {
      assert !IsMessageTag(nodes[0]);
      OutsideSteps(m, nodes[1..]);
    }
  }

  lemma MessageSteps(m: Messages, l: Logged)
    requires !m.inMessage && m.message == None && IsLogged(l)
    ensures var message := MessageOf(Texts(l.inside));
            Steps(m, NodesOf(l))
            == if m.error.None? then m.(error := message) else m.(messages := m.messages + [message])
  {
    var m1 := m.(inMessage := true);
    var m2 := m1.(message := MessageOf(Texts(l.inside)));
    StepsConcat(m, [l.open], l.inside + ([l.close] + l.behind));
    StepsConcat(m1, l.inside, [l.close] + l.behind);
    InsideSteps(m1, l.inside);
    StepsConcat(m2, [l.close], l.behind);
    OutsideSteps(Step(m2, l.close), l.behind);
  }

  // ----- What is reported -----

  /** How many messages there are before the first that has text. */
  function Wordless(ms: seq<Option<string>>): (n: nat)
    ensures n <= |ms| && (forall i | 0 <= i < n :: ms[i] == None) && (n < |ms| ==> ms[n].Some?)
  {
    if ms == [] || ms[0].Some? then 0 else 1 + Wordless(ms[1..])
  }

  lemma {:induction false} WordlessIs(ms: seq<Option<string>>, n: nat)
    requires n <= |ms| && (forall i | 0 <= i < n :: ms[i] == None) && (n < |ms| ==> ms[n].Some?)
    ensures Wordless(ms) == n
  {
    if n > 0 {
      WordlessIs(ms[1..], n - 1);
    }
  }

  /** The first message that has text is the error; all behind it are kept in order, with text or
      without. */
  predicate Reports(e: RemoteException, ms: seq<Option<string>>) {
    var n := Wordless(ms);
    if n == |ms| then e == RemoteException(None, [])
    else e == RemoteException(ms[n], ms[n + 1..])
  }

  lemma ReportsMore(e: RemoteException, ms: seq<Option<string>>, m: Option<string>)
    requires Reports(e, ms)
    ensures Reports(if e.error.None? then RemoteException(m, e.messages)
                    else RemoteException(e.error, e.messages + [m]), ms + [m])
  {
    var n, all := Wordless(ms), ms + [m];
    if n < |ms| {
      WordlessIs(all, n);
      assert all[n + 1..] == ms[n + 1..] + [m];
    } else {
      WordlessIs(all, if m.None? then n + 1 else n);
      assert all[n + 1..] == [];
    }
  }

  lemma OneMoreMessage(nodes: seq<Node>, l: Logged, ms: seq<Option<string>>)
    requires Reports(ExceptionOf(nodes), ms) && IsLogged(l)
    requires var m := Steps(NO_MESSAGES, nodes); !m.inMessage && m.message == None
    ensures Reports(ExceptionOf(nodes + NodesOf(l)), ms + [MessageOf(Texts(l.inside))])
    ensures var m := Steps(NO_MESSAGES, nodes + NodesOf(l)); !m.inMessage && m.message == None
  {
    StepsConcat(NO_MESSAGES, nodes, NodesOf(l));
    MessageSteps(Steps(NO_MESSAGES, nodes), l);
    ReportsMore(ExceptionOf(nodes), ms, MessageOf(Texts(l.inside)));
  }

  /** Whatever other nodes stand before, between, behind and inside the messages of a failure, and
      whatever text stands outside them. */
  lemma {:induction false} MessagesAreReported(front: seq<Node>, ls: seq<Logged>)
    requires NoTags(front) && forall i | 0 <= i < |ls| :: IsLogged(ls[i])
    ensures Reports(ExceptionOf(front + AllNodes(ls)), MessagesOf(ls))
    ensures var m := Steps(NO_MESSAGES, front + AllNodes(ls)); !m.inMessage && m.message == None
    decreases |ls|
  {
    if ls == [] {
      AddNothing(front);
      OutsideSteps(NO_MESSAGES, front);
    } else {
      var init, last := ls[..|ls| - 1], ls[|ls| - 1];
      MessagesAreReported(front, init);
      Associate(front, AllNodes(init), NodesOf(last));
      OneMoreMessage(front + AllNodes(init), last, MessagesOf(init));
      MessagesOfSnoc(init, last);
      assert ls == init + [last];
    }
  }
}
