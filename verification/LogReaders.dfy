/** Reading the log that WinSCP writes: SessionLogReader, ElementLogReader and CustomLogReader of
    dotnet/internal, and ReadMessages of dotnet/SessionRemoteException.cs. */
module LogReaders {
  import opened Basics
  import opened LogNodes

  /** What one call of the XML reader does. */
  datatype XmlResult = Delivered | EndOfDocument | ParseError

  /** The log file over time. Time passes with every operation on it, and in between the other
      process writes: by a given time so many nodes are complete, and from some time on all are and
      the file is no longer open for writing. */
  class LogFile {
    const nodes: Log
    const available: nat -> nat
    const closedAt: nat
    var time: nat

    ghost predicate Sound() {
      && WellFormed(nodes)
      && (forall s: nat, t: nat | s <= t :: available(s) <= available(t) <= |nodes|)
      && available(closedAt) == |nodes|
    }

    constructor (nodes: Log, available: nat -> nat, closedAt: nat)
      ensures this.nodes == nodes && this.available == available && this.closedAt == closedAt && time == 0
    {
      this.nodes, this.available, this.closedAt, time := nodes, available, closedAt, 0;
    }

    /** Events are dispatched for a while. */
    method Wait()
      modifies this`time
      ensures time == old(time) + 1
    {
      time := time + 1;
    }

    /** Opening without write sharing works only once the file is closed. */
    method OpenWithoutWriteSharing() returns (ok: bool)
      modifies this`time
      ensures time == old(time) + 1 && (ok <==> time >= closedAt)
    {
      time := time + 1;
      ok := time >= closedAt;
    }

    /** XmlReader.Read with so many nodes behind it: an unfinished document is a parse error. */
    method ReadNode(cursor: nat) returns (result: XmlResult)
      modifies this`time
      ensures time == old(time) + 1
      ensures result == if cursor < available(time) then Delivered
                        else if cursor >= |nodes| then EndOfDocument else ParseError
    {
      time := time + 1;
      result :=
        if cursor < available(time) then Delivered else if cursor >= |nodes| then EndOfDocument else ParseError;
    }
  }

  /** The open XML reader is represented by how many nodes it has read; raised are the failures
      that the session was told. */
  class SessionLogReader {
    const file: LogFile
    var position: nat
    var reader: Option<nat>
    var closed: bool
    var raised: seq<RemoteException>

    /** An open XML reader stands where reading is; a closed log is complete, and it is given up
        only at its end. */
    ghost predicate Valid()
      reads this, file
    {
      && file.Sound() && position <= file.available(file.time) <= |file.nodes|
      && (reader.Some? ==> reader.value == position)
      && (closed ==> file.available(file.time) == |file.nodes|)
      && (closed && reader.None? ==> position == |file.nodes|)
    }

    constructor (file: LogFile)
      requires file.Sound()
      ensures Valid() && this.file == file && position == 0 && reader == None && !closed && raised == []
    {
      this.file, position, reader, closed, raised := file, 0, None, false, [];
    }

    /** The node that was read last. */
    function Current(): Node
      requires 0 < position <= |file.nodes|
      reads this
    {
      file.nodes[position - 1]
    }

    method Cleanup()
      modifies this`reader
      ensures reader == None
    {
      reader := None;
    }

    /** OpenLog: open and skip the nodes read before. It fails only if the log was closed. */
    method OpenLog() returns (ok: bool)
      requires Valid() && reader == None
      modifies this`reader, this`closed, file`time
      ensures ok <==> !old(closed)
      ensures !ok ==> Valid() && reader == None && closed && file.time == old(file.time)
      ensures ok ==> Valid() && reader == Some(position) && file.time > old(file.time)
      ensures ok && old(file.time) >= file.closedAt ==> closed
    {
      if closed {
        return false;
      }
      closed := file.OpenWithoutWriteSharing();
      ok := SkipNodes(position);
    }

    /** The loop of OpenLog: it never runs out of nodes. */
    method SkipNodes(skip0: nat) returns (ok: bool)
      requires file.Sound() && skip0 == position <= file.available(file.time)
      modifies this`reader, file`time
      ensures ok && reader == Some(position) && file.time >= old(file.time)
    {
      reader := Some(0);
      var skip := skip0;
      while skip > 0
        invariant 0 <= skip <= position && reader == Some(position - skip) && file.time >= old(file.time)
        invariant position <= file.available(file.time)
      {
        var result := file.ReadNode(reader.value);
        if result != Delivered {
          return false;
        }
        reader := Some(reader.value + 1);
        skip := skip - 1;
      }
      ok := true;
    }

    /** How long the log may still be open for writing. */
    ghost function Remaining(): nat
      reads this, file
    {
      if file.closedAt > file.time then file.closedAt - file.time else 0
    }

    /** One round of DoRead: a node, an end or an exception, or nothing yet. */
    method TryRead() returns (done: bool, outcome: Outcome)
      requires Valid()
      modifies this`position, this`reader, this`closed, file`time
      ensures Valid() && (!done ==> file.time > old(file.time))
      ensures done && old(position) < |file.nodes| ==> outcome == Got && position == old(position) + 1 && reader.Some?
      ensures done && old(position) == |file.nodes| ==>
                position == old(position) && outcome == if old(closed && reader.None?) then Broken else AtEnd
      ensures !done ==> position == old(position) && reader == None && !closed
      ensures !done ==> !old(closed) && old(reader.None? ==> file.time < file.closedAt)
    {
      if reader.None? {
        var ok := OpenLog();
        if !ok {
          return true, Broken;
        }
      }
      var result := file.ReadNode(reader.value);
      match result
      case Delivered =>
        reader, position := Some(reader.value + 1), position + 1;
        done, outcome := true, Got;
      case EndOfDocument =>
        if !closed {
          closed := true;
          Cleanup();
        }
        done, outcome := true, AtEnd;
      case ParseError =>
        Cleanup();
        if closed {
          done, outcome := true, Broken;
        } else {
          done, outcome := false, AtEnd;
          file.Wait();
        }
    }

    /** DoRead: however often the log had to be reopened, the next node is delivered, until all
        have been. */
    method DoRead() returns (outcome: Outcome)
      requires Valid()
      modifies this`position, this`reader, this`closed, file`time
      ensures Valid()
      ensures old(position) < |file.nodes| ==> outcome == Got && position == old(position) + 1 && reader.Some?
      ensures old(position) == |file.nodes| ==>
                position == old(position) && outcome == if old(closed && reader.None?) then Broken else AtEnd
    {
      var done;
      done, outcome := TryRead();
      while !done
        invariant Valid()
        invariant !done ==> position == old(position) && reader == None && !closed
        invariant !done ==> !old(closed)
        invariant done && old(position) < |file.nodes| ==>
                    outcome == Got && position == old(position) + 1 && reader.Some?
        invariant done && old(position) == |file.nodes| ==>
                    position == old(position) && outcome == if old(closed && reader.None?) then Broken else AtEnd
        decreases !done, Remaining()
      {
        done, outcome := TryRead();
      }
    }

    /** All nodes from here on are delivered in order, none twice and none left out. */
    method DeliverRest() returns (delivered: Log)
      requires Valid()
      modifies this`position, this`reader, this`closed, file`time
      ensures Valid() && position == |file.nodes| && delivered == file.nodes[old(position)..]
    {
      delivered := [];
      var outcome := Got;
      while outcome == Got
        invariant Valid() && old(position) <= position && delivered == file.nodes[old(position)..position]
        invariant outcome == Got || position == |file.nodes|
        decreases |file.nodes| - position, outcome == Got
      {
        outcome := DoRead();
        if outcome == Got {
          delivered := delivered + [Current()];
        }
      }
    }

    /** A read from p on, with raised0 raised before, is over. */
    ghost predicate ReadDone(throwFailures: bool, p: nat, raised0: seq<RemoteException>, outcome: Outcome)
      requires file.Sound() && p <= |file.nodes|
      reads this
    {
      var q, meant := Target(file.nodes, throwFailures, p), OutcomeOf(file.nodes, throwFailures, p);
      && position == (if q < |file.nodes| then q + 1 else |file.nodes|)
      && raised == raised0 + RaisedBy(file.nodes, throwFailures, p)
      && (outcome == meant || (outcome == Broken && meant == AtEnd))
      && (outcome == Got ==> reader.Some?)
    }

    /** One round of Read: a failure that is met is consumed and raised. */
    method ReadOnce(throwFailures: bool) returns (outcome: Outcome, retry: bool)
      requires Valid()
      modifies this, file`time
      ensures Valid()
      ensures !retry ==> ReadDone(throwFailures, old(position), old(raised), outcome)
      ensures retry ==> !throwFailures && old(position) < |file.nodes| && IsFailure(file.nodes[old(position)])
                        && position == CloseOf(file.nodes, old(position)) + 1
                        && raised == old(raised) + FailureAt(file.nodes, old(position))
      decreases |file.nodes| - position, 0, 0, 0
    {
      ghost var p := position;
      outcome := DoRead();
      retry := false;
      if outcome == Got && IsNonEmptyElement(Current(), "failure") {
        assert Closes(file.nodes, p, CloseOf(file.nodes, p));
        var e := ReadMessages(this, null);
        Associate(old(raised), Failures(file.nodes, p + 1, CloseOf(file.nodes, p)), [e]);
        raised := raised + [e];
        if throwFailures {
          outcome := Failed(e);
        } else {
          retry := true;
        }
      }
      AddNothing(old(raised));
    }

    /** A read from p0 on has the same to do from here on. */
    ghost predicate SameAhead(throwFailures: bool, p0: nat, raised0: seq<RemoteException>)
      requires file.Sound() && p0 <= |file.nodes| && position <= |file.nodes|
      reads this
    {
      && Target(file.nodes, throwFailures, position) == Target(file.nodes, throwFailures, p0)
      && OutcomeOf(file.nodes, throwFailures, position) == OutcomeOf(file.nodes, throwFailures, p0)
      && raised + RaisedBy(file.nodes, throwFailures, position) == raised0 + RaisedBy(file.nodes, throwFailures, p0)
    }

    /** Read: failures are consumed and raised. They are then passed over, or thrown. */
    method Read(throwFailures: bool) returns (outcome: Outcome)
      requires Valid()
      modifies this, file`time
      ensures Valid() && ReadDone(throwFailures, old(position), old(raised), outcome)
      decreases |file.nodes| - position, 1, 0, 0
    {
      var retry := true;
      outcome := Got;
      while retry
        invariant Valid() && position >= old(position)
        invariant retry ==> SameAhead(throwFailures, old(position), old(raised))
        invariant !retry ==> ReadDone(throwFailures, old(position), old(raised), outcome)
        decreases retry, |file.nodes| - position
      {
        ghost var p, before := position, raised;
        outcome, retry := ReadOnce(throwFailures);
        if retry {
          PassedOver(file.nodes, p, before, raised);
        }
      }
    }
  }

  /** A failure passed over changes neither where reading stops nor what it raises in all. */
  lemma PassedOver(log: Log, p: nat, before: seq<RemoteException>, after: seq<RemoteException>)
    requires WellFormed(log) && p < |log| && IsFailure(log[p]) && after == before + FailureAt(log, p)
    ensures CloseOf(log, p) < |log|
    ensures var next := CloseOf(log, p) + 1;
            && Target(log, false, next) == Target(log, false, p)
            && OutcomeOf(log, false, next) == OutcomeOf(log, false, p)
            && after + RaisedBy(log, false, next) == before + RaisedBy(log, false, p)
  {
    assert Closes(log, p, CloseOf(log, p));
    Associate(before, FailureAt(log, p), Failures(log, CloseOf(log, p) + 1, Skip(log, p)));
  }

  /** A reader for the content of one element, which reads through its parent: another element
      reader, or the session reader if there is none. */
  class ElementLogReader {
    const session: SessionLogReader
    const parent: ElementLogReader?
    const localName: string
    const depth: nat
    var isRead: bool
    /** Where the element stands in the log; this reader and those it reads through; how many. */
    ghost const start: nat
    ghost const chain: set<ElementLogReader>
    ghost const level: nat

    /** Readers are nested as their elements are, and each is read to the end exactly when its end
        tag has been passed. */
    ghost predicate Valid()
      reads this, session, session.file, chain
      decreases level
    {
      && session.Valid()
      && start < |session.file.nodes| && Opens(session.file.nodes[start]) && session.file.nodes[start].ours
      && localName == session.file.nodes[start].name && depth == session.file.nodes[start].depth
      && start < session.position && (isRead <==> session.position > CloseOf(session.file.nodes, start))
      && (parent == null ==> chain == {this})
      && (parent != null ==>
            && parent.level < level && parent.session == session && parent in parent.chain
            && chain == parent.chain + {this} && this !in parent.chain
            && parent.start < start < CloseOf(session.file.nodes, parent.start)
            && parent.Valid())
    }

    /** The constructor; the caller has seen that the current node is a nonempty element. */
    constructor (session: SessionLogReader, parent: ElementLogReader?)
      requires CanOpen(session, parent)
      ensures Valid() && !isRead && fresh(this) && start == session.position - 1
      ensures this.session == session && this.parent == parent
      ensures chain == if parent == null then {this} else parent.chain + {this}
    {
      this.session, this.parent := session, parent;
      localName, depth := session.Current().name, session.Current().depth;
      isRead := false;
      start := session.position - 1;
      chain := if parent == null then {this} else parent.chain + {this};
      level := if parent == null then 0 else parent.level + 1;
    }

    /** A read by this reader from p on, with raised0 raised before, is over: at its own end tag
        it meets its end. */
    ghost predicate ReadDone(throwFailures: bool, p: nat, raised0: seq<RemoteException>, outcome: Outcome)
      requires session.file.Sound() && p <= |session.file.nodes| && start < |session.file.nodes|
      reads this, session
    {
      var log := session.file.nodes;
      var q := Target(log, throwFailures, p);
      && session.position == q + 1 && q <= CloseOf(log, start)
      && session.raised == raised0 + RaisedBy(log, throwFailures, p)
      && (isRead <==> q == CloseOf(log, start))
      && outcome == (if isRead then AtEnd else OutcomeOf(log, throwFailures, p))
      && outcome != Broken && (outcome == Got ==> session.reader.Some?)
    }

    /** A read through the parent. It stops no later than at this reader's end tag, which is before
        the parent's. */
    method ReadParent(throwFailures: bool) returns (outcome: Outcome)
      requires Valid() && !isRead
      modifies session, session.file`time, chain`isRead
      ensures session.Valid() && (parent != null ==> parent.Valid())
      ensures forall r | r in chain :: r.isRead == old(r.isRead)
      ensures session.position == Target(session.file.nodes, throwFailures, old(session.position)) + 1
      ensures session.raised == old(session.raised) + RaisedBy(session.file.nodes, throwFailures, old(session.position))
      ensures outcome == OutcomeOf(session.file.nodes, throwFailures, old(session.position))
      ensures outcome == Got ==> session.reader.Some?
      decreases |session.file.nodes| - session.position, 2, level, 0
    {
      TargetInside(session.file.nodes, start, throwFailures, session.position);
      if parent == null {
        outcome := session.Read(throwFailures);
      } else {
        Nested(session.file.nodes, parent.start, start);
        outcome := parent.Read(throwFailures);
      }
    }

    /** Read */
    method Read(throwFailures: bool) returns (outcome: Outcome)
      requires Valid()
      modifies session, session.file`time, chain`isRead
      ensures Valid() && forall r | r in chain && r != this :: r.isRead == old(r.isRead)
      ensures old(isRead) ==> outcome == Broken && isRead && session.position == old(session.position)
      ensures !old(isRead) ==> ReadDone(throwFailures, old(session.position), old(session.raised), outcome)
      decreases |session.file.nodes| - session.position, 2, level, 1
    {
      if isRead {
        return Broken;
      }
      TargetInside(session.file.nodes, start, throwFailures, session.position);
      outcome := ReadParent(throwFailures);
      if outcome == Got {
        EndTagIsTold(session.file.nodes, start, session.position - 1);
        if IsEndElement(session.Current(), localName) && session.Current().depth == depth {
          outcome := AtEnd;
          isRead := true;
        }
      }
    }

    /** What this reader has seen and the session was told lacks just what is still ahead. */
    ghost predicate OnTheWay(seen: seq<Node>, content: seq<Node>, allRaised: seq<RemoteException>)
      reads this, session
    {
      Ahead(session.file.nodes, start, session.position, isRead, seen, session.raised, content, allRaised)
    }

    /** A read in a loop over this reader. */
    method ReadNext(throwFailures: bool, ghost seen0: seq<Node>, ghost content: seq<Node>,
                    ghost allRaised: seq<RemoteException>)
      returns (outcome: Outcome, ghost seen: seq<Node>)
      requires Valid() && !isRead && (!throwFailures ==> OnTheWay(seen0, content, allRaised))
      modifies session, session.file`time, chain`isRead
      ensures Valid() && session.position > old(session.position) && (isRead <==> outcome == AtEnd)
      ensures forall r | r in chain && r != this :: r.isRead == old(r.isRead)
      ensures outcome == Got || outcome == AtEnd || (throwFailures && outcome.Failed?)
      ensures outcome == Got ==> session.reader.Some?
      ensures isRead ==> session.position == CloseOf(session.file.nodes, start) + 1
      ensures seen == if outcome == Got then seen0 + [session.Current()] else seen0
      ensures !throwFailures ==> OnTheWay(seen, content, allRaised)
      decreases |session.file.nodes| - session.position, 3, 0, 0
    {
      ghost var log, p, before := session.file.nodes, session.position, session.raised;
      outcome := Read(throwFailures);
      seen := if outcome == Got then seen0 + [session.Current()] else seen0;
      if !throwFailures {
        AheadStep(log, start, p, seen0, before, session.raised, content, allRaised);
      }
    }

    /** What is to be seen and raised from here on. */
    lemma Start() returns (content: seq<Node>, allRaised: seq<RemoteException>)
      requires Valid() && !isRead
      ensures CloseOf(session.file.nodes, start) < |session.file.nodes|
      ensures content == Visible(session.file.nodes, session.position, CloseOf(session.file.nodes, start))
      ensures allRaised
              == session.raised + Failures(session.file.nodes, session.position, CloseOf(session.file.nodes, start))
      ensures OnTheWay([], content, allRaised)
    {
      assert Closes(session.file.nodes, start, CloseOf(session.file.nodes, start));
      content := Visible(session.file.nodes, session.position, CloseOf(session.file.nodes, start));
      allRaised := session.raised + Failures(session.file.nodes, session.position, CloseOf(session.file.nodes, start));
      AddNothing(content);
    }

    /** ReadToEnd */
    method ReadToEnd(throwFailures: bool) returns (outcome: Outcome)
      requires Valid()
      modifies session, session.file`time, chain`isRead
      ensures Valid() && forall r | r in chain && r != this :: r.isRead == old(r.isRead)
      ensures old(isRead) ==> session.position == old(session.position) && session.raised == old(session.raised)
      ensures isRead <==> outcome == AtEnd
      ensures !old(isRead) && isRead ==> session.position == CloseOf(session.file.nodes, start) + 1
      ensures outcome == AtEnd || (throwFailures && outcome.Failed?)
      ensures !throwFailures && !old(isRead) ==>
                session.raised == old(session.raised)
                  + Failures(session.file.nodes, old(session.position), CloseOf(session.file.nodes, start))
    {
      if isRead {
        return AtEnd;
      }
      ghost var content, allRaised := Start();
      ghost var seen := [];
      outcome := Got;
      while outcome == Got
        invariant Valid() && forall r | r in chain && r != this :: r.isRead == old(r.isRead)
        invariant isRead <==> outcome == AtEnd
        invariant outcome == Got || outcome == AtEnd || (throwFailures && outcome.Failed?)
        invariant isRead ==> session.position == CloseOf(session.file.nodes, start) + 1
        invariant !throwFailures ==> OnTheWay(seen, content, allRaised)
        decreases |session.file.nodes| - session.position
      {
        outcome, seen := ReadNext(throwFailures, seen, content, allRaised);
      }
    }

    /** Dispose: the cursor is left on this reader's own end tag. */
    method Dispose()
      requires Valid()
      modifies session, session.file`time, chain`isRead
      ensures Valid() && isRead && forall r | r in chain && r != this :: r.isRead == old(r.isRead)
      ensures old(isRead) ==> session.position == old(session.position) && session.raised == old(session.raised)
      ensures !old(isRead) ==>
                && session.position == CloseOf(session.file.nodes, start) + 1
                && Closes(session.file.nodes, start, session.position - 1)
                && session.raised == old(session.raised)
                     + Failures(session.file.nodes, old(session.position), CloseOf(session.file.nodes, start))
    {
      assert Closes(session.file.nodes, start, CloseOf(session.file.nodes, start));
      var outcome := ReadToEnd(false);
    }

    /** A loop over the reader: what it sees is what is left of the content, without failures. */
    method ReadAll() returns (nodes: seq<Node>)
      requires Valid() && !isRead
      modifies session, session.file`time, chain`isRead
      ensures Valid() && isRead && session.position == CloseOf(session.file.nodes, start) + 1
      ensures CloseOf(session.file.nodes, start) < |session.file.nodes|
      ensures nodes == Visible(session.file.nodes, old(session.position), CloseOf(session.file.nodes, start))
    {
      ghost var content, allRaised := Start();
      ghost var seen := [];
      nodes := [];
      var outcome := Got;
      while outcome == Got
        invariant Valid() && (outcome == Got || outcome == AtEnd) && (isRead <==> outcome == AtEnd)
        invariant nodes == seen && OnTheWay(seen, content, allRaised)
        decreases |session.file.nodes| - session.position
      {
        outcome, seen := ReadNext(false, seen, content, allRaised);
        if outcome == Got {
          nodes := nodes + [session.Current()];
        }
      }
    }

    /** What this reader still sees. */
    ghost function Left(): seq<Node>
      requires Valid()
      reads this, session, session.file, chain
    {
      Visible(session.file.nodes, session.position, CloseOf(session.file.nodes, start))
    }

    /** TryWaitForNonEmptyElement: passed are the nodes seen on the way. */
    method TryWaitForNonEmptyElement(name: string, throwFailures: bool)
      returns (outcome: Outcome, ghost passed: seq<Node>)
      requires Valid()
      modifies session, session.file`time, chain`isRead
      ensures Valid() && forall r | r in chain && r != this :: r.isRead == old(r.isRead)
      ensures old(isRead) ==> outcome == Broken && isRead && session.position == old(session.position)
      ensures !old(isRead) ==> (isRead <==> outcome == AtEnd)
      ensures !old(isRead) ==> outcome == Got || outcome == AtEnd || (throwFailures && outcome.Failed?)
      ensures outcome == Got ==> CanOpen(session, this) && IsNonEmptyElement(session.Current(), name)
      ensures forall n | n in passed :: !IsNonEmptyElement(n, name)
      ensures !old(isRead) && !throwFailures ==>
                old(Left()) == passed + if outcome == AtEnd then [] else [session.Current()] + Left()
    {
      passed := [];
      if isRead {
        return Broken, [];
      }
      ghost var content, allRaised := Start();
      ghost var seen := [];
      outcome := Got;
      var found := false;
      while outcome == Got && !found
        invariant Valid() && forall r | r in chain && r != this :: r.isRead == old(r.isRead)
        invariant isRead <==> outcome == AtEnd
        invariant outcome == Got || outcome == AtEnd || (throwFailures && outcome.Failed?)
        invariant found ==> outcome == Got && CanOpen(session, this) && IsNonEmptyElement(session.Current(), name)
        invariant seen == if found then passed + [session.Current()] else passed
        invariant forall n | n in passed :: !IsNonEmptyElement(n, name)
        invariant !throwFailures ==> OnTheWay(seen, content, allRaised)
        decreases |session.file.nodes| - session.position, !found
      {
        outcome, seen := ReadNext(throwFailures, seen, content, allRaised);
        if outcome == Got {
          found := IsNonEmptyElement(session.Current(), name);
          if !found {
            passed := seen;
          }
        }
      }
      if found && !throwFailures {
        Associate(passed, [session.Current()], Left());
      }
      AddNothing(passed);
    }

    /** A child element found, opened and disposed again: this reader is where the child ends, and
        can go on. */
    method VisitChild(name: string) returns (found: bool)
      requires Valid() && !isRead
      modifies session, session.file`time, chain`isRead
      ensures Valid() && (found <==> !isRead)
      ensures found ==> exists i | start < i < CloseOf(session.file.nodes, start) ::
                IsNonEmptyElement(session.file.nodes[i], name) && CloseOf(session.file.nodes, i) == session.position - 1
    {
      var outcome;
      ghost var passed;
      outcome, passed := TryWaitForNonEmptyElement(name, false);
      found := outcome == Got;
      if found {
        var child := new ElementLogReader(session, this);
        child.Dispose();
        assert IsNonEmptyElement(session.file.nodes[child.start], name);
      }
    }
  }

  /** The current node is a nonempty element of the session, inside the parent's. */
  ghost predicate CanOpen(session: SessionLogReader, parent: ElementLogReader?)
    reads session, session.file, parent, if parent == null then {} else parent.chain
  {
    && session.Valid() && session.position > 0 && Opens(session.Current()) && session.Current().ours
    && (parent != null ==>
          parent.session == session && parent in parent.chain && parent.Valid() && !parent.isRead
          && session.position - 1 > parent.start)
  }

  /** What is still to be seen and raised in the element at i, from p on, parts at the next node
      that is read. */
  lemma ContentParts(log: Log, i: nat, p: nat)
    requires WellFormed(log) && i < |log| && Opens(log[i]) && i < p <= CloseOf(log, i)
    ensures var c, q := CloseOf(log, i), Skip(log, p);
            && q <= c < |log|
            && Visible(log, p, c) == (if q < c then [log[q]] + Visible(log, q + 1, c) else [])
            && Failures(log, p, c) == Failures(log, p, q) + (if q < c then Failures(log, q + 1, c) else [])
  {
    SkipStaysInside(log, i, p);
    VisibleFromSkip(log, p, CloseOf(log, i));
    FailuresFromSkip(log, p, CloseOf(log, i));
  }

  /** In the element at i, read up to p or to its end: what was seen, and the failures raised,
      lack just what is still ahead. */
  ghost predicate Ahead(log: Log, i: nat, p: nat, isRead: bool, seen: seq<Node>, raised: seq<RemoteException>,
                        content: seq<Node>, allRaised: seq<RemoteException>) {
    && WellFormed(log) && i < |log| && Opens(log[i]) && CloseOf(log, i) < |log|
    && if isRead then p == CloseOf(log, i) + 1 && seen == content && raised == allRaised
       else i < p <= CloseOf(log, i) && content == seen + Visible(log, p, CloseOf(log, i))
            && allRaised == raised + Failures(log, p, CloseOf(log, i))
  }

  /** What a read comes to: the next node is seen, or all has been seen. */
  lemma AheadStep(log: Log, i: nat, p: nat, seen: seq<Node>, raised0: seq<RemoteException>,
                  raised1: seq<RemoteException>, content: seq<Node>, allRaised: seq<RemoteException>)
    requires Ahead(log, i, p, false, seen, raised0, content, allRaised)
    requires raised1 == raised0 + Failures(log, p, Skip(log, p))
    ensures var c, q := CloseOf(log, i), Skip(log, p);
            && q <= c
            && Ahead(log, i, q + 1, q == c, if q == c then seen else seen + [log[q]], raised1, content, allRaised)
  {
    ContentParts(log, i, p);
    var c, q := CloseOf(log, i), Skip(log, p);
    if q < c {
      Associate(raised0, Failures(log, p, q), Failures(log, q + 1, c));
      Associate(seen, [log[q]], Visible(log, q + 1, c));
    } else {
      AddNothing(Failures(log, p, q));
      AddNothing(seen);
    }
  }

  /** One round of ReadMessages: the next node is read and taken into account. */
  method CollectNext(reader: ElementLogReader, m0: Messages, ghost seen0: seq<Node>, ghost content: seq<Node>,
                     ghost allRaised: seq<RemoteException>)
    returns (more: bool, m: Messages, ghost seen: seq<Node>)
    requires reader.Valid() && !reader.isRead
    requires reader.OnTheWay(seen0, content, allRaised) && m0 == Steps(NO_MESSAGES, seen0)
    modifies reader.session, reader.session.file`time, reader.chain`isRead
    ensures reader.Valid() && reader.session.position > old(reader.session.position) && (more <==> !reader.isRead)
    ensures forall r | r in reader.chain && r != reader :: r.isRead == old(r.isRead)
    ensures reader.OnTheWay(seen, content, allRaised) && m == Steps(NO_MESSAGES, seen)
    decreases |reader.session.file.nodes| - reader.session.position, 4, 0, 0
  {
    var outcome;
    outcome, seen := reader.ReadNext(false, seen0, content, allRaised);
    more, m := outcome == Got, m0;
    if more {
      StepsConcat(NO_MESSAGES, seen0, [reader.session.Current()]);
      m := Step(m0, reader.session.Current());
    }
  }

  /** ReadMessages: the messages in the element that the current node opens, which is read to its
      end. */
  method ReadMessages(session: SessionLogReader, parent: ElementLogReader?) returns (e: RemoteException)
    requires CanOpen(session, parent)
    modifies session, session.file`time, (if parent == null then {} else parent.chain)`isRead
    ensures session.Valid()
    ensures session.position == CloseOf(session.file.nodes, old(session.position) - 1) + 1
    ensures e == ExceptionOf(Content(session.file.nodes, old(session.position) - 1))
    ensures session.raised == old(session.raised)
      + Failures(session.file.nodes, old(session.position), CloseOf(session.file.nodes, old(session.position) - 1))
    ensures parent != null ==> parent.Valid() && forall r | r in parent.chain :: r.isRead == old(r.isRead)
    decreases |session.file.nodes| - session.position, 5, 0, 0
  {
    var reader := new ElementLogReader(session, parent);
    ghost var content, allRaised := reader.Start();
    ghost var seen := [];
    var m, more := NO_MESSAGES, true;
    while more
      invariant reader.Valid() && (more <==> !reader.isRead) && session.position >= old(session.position)
      invariant parent != null ==> forall r | r in parent.chain :: r.isRead == old(r.isRead)
      invariant reader.OnTheWay(seen, content, allRaised) && m == Steps(NO_MESSAGES, seen)
      decreases |session.file.nodes| - session.position
    {
      more, m, seen := CollectNext(reader, m, seen, content, allRaised);
    }
    e := RemoteException(m.error, m.messages);
  }
}
