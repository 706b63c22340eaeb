/** The reboot handshake over FIFOs: one master, n slaves, all interleavings of their steps. */
module RebootHandshake {
  import opened Bits

  /** What the send loop met at one slave's FIFO. */
  datatype SendResult = Absent | OpenFailed | WriteFailed | Sent

  /** A slave waits for the message, holds it, has answered, or has left without answering. */
  datatype Slave = Waiting | Informed | Answered | Left

  datatype Exit = Running | AllReceived | TimedOut

  /** What select returned in the collect loop; Ready carries the number of bytes read. */
  datatype Wake = Failed | Timeout | Ready(count: nat)

  datatype State = State(
    next: nat,           // the send loop has served the slaves below this index
    syncBit: nat,        // bits of the contacted slaves
    resBit: nat,         // bits of the recorded answers
    inbox: seq<nat>,     // unread messages in each slave's FIFO
    slaves: seq<Slave>,
    answers: seq<nat>,   // the indices in the master's FIFO
    got: seq<nat>,       // every index the master has read, in order
    exit: Exit)

  const READ_LIMIT: nat := 32

  datatype Step =
    | Send(result: SendResult)
    | Collect(wake: Wake)
    | Receive(slave: nat)
    | EndOfFile(slave: nat)
    | Answer(slave: nat)
    | AnswerFails(slave: nat)

  function Init(n: nat): State {
    State(0, 0, 0, seq(n, _ => 0), seq(n, _ => Waiting), [], [], Running)
  }

  // ---- steps --------------------------------------------------------------------------------

  /** The bits after the indices of a buffer are recorded one by one. */
  function Record(bits: nat, buffer: seq<nat>): nat {
    if buffer == [] then bits
    else Or(Record(bits, buffer[..|buffer| - 1]), Pow2(buffer[|buffer| - 1]))
  }

  predicate Enabled(s: State, step: Step) {
    match step
    case Send(_) => s.exit == Running && s.next < |s.slaves| == |s.inbox|
    case Collect(wake) =>
      && s.exit == Running && s.next == |s.slaves|
      && (wake.Ready? ==> 1 <= wake.count <= |s.answers| && wake.count <= READ_LIMIT)
    case Receive(i) => i < |s.slaves| == |s.inbox| && s.slaves[i] == Waiting && s.inbox[i] > 0
    case EndOfFile(i) => i < |s.slaves| == |s.inbox| && s.slaves[i] == Waiting && s.inbox[i] == 0
    case Answer(i) => i < |s.slaves| && s.slaves[i] == Informed
    case AnswerFails(i) => i < |s.slaves| && s.slaves[i] == Informed
  }

  /** A slave counts as contacted once its FIFO opens, whether or not the write succeeds. */
  function SendTo(s: State, result: SendResult): State
    requires s.next < |s.slaves| == |s.inbox|
  {
    var i := s.next;
    match result
    case Absent => s.(next := i + 1)
    case OpenFailed => s.(next := i + 1)
    case WriteFailed => s.(next := i + 1, syncBit := Or(s.syncBit, Pow2(i)))
    case Sent => s.(next := i + 1, syncBit := Or(Or(s.syncBit, Pow2(i)), Pow2(i)),
      inbox := s.inbox[i := s.inbox[i] + 1])
  }

  /** Takes the first answers out of the FIFO and records them. */
  function ReadAnswers(s: State, count: nat): State
    requires count <= |s.answers|
  {
    var buffer := s.answers[..count];
    s.(resBit := Record(s.resBit, buffer), answers := s.answers[count..], got := s.got + buffer)
  }

  /** One pass of the collect loop: read what there is, then compare the two masks. */
  function CollectOnce(s: State, wake: Wake): State
    requires wake.Ready? ==> wake.count <= |s.answers|
  {
    match wake
    case Timeout => s.(exit := TimedOut)
    case Failed => if s.syncBit == s.resBit then s.(exit := AllReceived) else s
    case Ready(count) =>
      var t := ReadAnswers(s, count);
      if t.syncBit == t.resBit then t.(exit := AllReceived) else t
  }

  function Next(s: State, step: Step): State
    requires Enabled(s, step)
  {
    match step
    case Send(result) => SendTo(s, result)
    case Collect(wake) => CollectOnce(s, wake)
    case Receive(i) => s.(slaves := s.slaves[i := Informed], inbox := s.inbox[i := s.inbox[i] - 1])
    case EndOfFile(i) => s.(slaves := s.slaves[i := Left])
    case Answer(i) => s.(slaves := s.slaves[i := Answered], answers := s.answers + [i])
    case AnswerFails(i) => s.(slaves := s.slaves[i := Left])
  }

  /** Every step of the run is enabled in the state reached before it. */
  ghost predicate Legal(n: nat, steps: seq<Step>)
    decreases |steps|, 0
  {
    steps == [] ||
    (Legal(n, steps[..|steps| - 1]) && Enabled(After(n, steps[..|steps| - 1]), steps[|steps| - 1]))
  }

  /** The state after a legal run from fresh FIFOs. */
  ghost function After(n: nat, steps: seq<Step>): State
    requires Legal(n, steps)
    decreases |steps|, 1
  {
    if steps == [] then Init(n)
    else Next(After(n, steps[..|steps| - 1]), steps[|steps| - 1])
  }

  // ---- the invariant --------------------------------------------------------------------------

  ghost predicate Contacted(s: State, i: nat) { Bit(s.syncBit, i) }

  ghost predicate Recorded(s: State, i: nat) { Bit(s.resBit, i) }

  /** Slave i has at most one message, only if contacted, and its answers are where they should be. */
  ghost predicate SlaveInv(s: State, i: nat)
    requires i < |s.slaves| == |s.inbox|
  {
    && s.inbox[i] <= 1
    && (s.inbox[i] > 0 ==> s.slaves[i] == Waiting || s.slaves[i] == Left)
    && (s.inbox[i] > 0 || s.slaves[i] == Informed || s.slaves[i] == Answered ==> Bit(s.syncBit, i))
    && (i >= s.next ==> s.inbox[i] == 0 && s.slaves[i] != Informed && s.slaves[i] != Answered)
    && multiset(s.answers + s.got)[i] == (if s.slaves[i] == Answered then 1 else 0)
  }

  ghost predicate Inv(n: nat, s: State) {
    && |s.slaves| == |s.inbox| == n && s.next <= n
    && (forall i :: 0 <= i < n ==> SlaveInv(s, i))
    && (forall k: nat :: Bit(s.syncBit, k) ==> k < s.next)
    && (forall k: nat :: Bit(s.resBit, k) <==> k in s.got)
    && (forall k :: k in s.answers + s.got ==> k < n)
    && (s.exit == AllReceived ==> s.syncBit == s.resBit && s.next == n)
  }

  // ---- every step keeps it --------------------------------------------------------------------

  lemma {:induction false} RecordBits(bits: nat, buffer: seq<nat>, k: nat)
    ensures Bit(Record(bits, buffer), k) <==> Bit(bits, k) || k in buffer
    decreases |buffer|
  {
    hide Bit, Or;
    if buffer != [] {
      var last := buffer[|buffer| - 1];
      RecordBits(bits, buffer[..|buffer| - 1], k);
      OrBit(Record(bits, buffer[..|buffer| - 1]), Pow2(last), k);
      Pow2Bit(last, k);
      assert buffer == buffer[..|buffer| - 1] + [last];
    }
  }

  lemma InitInv(n: nat)
    ensures Inv(n, Init(n))
  {
    forall k: nat ensures !Bit(0, k) { ZeroHasNoBits(k); }
  }

  /** Setting bit i once or twice adds exactly slave i to the contacted ones. */
  lemma ContactBit(bits: nat, i: nat, k: nat)
    ensures Bit(Or(bits, Pow2(i)), k) <==> Bit(bits, k) || k == i
    ensures Bit(Or(Or(bits, Pow2(i)), Pow2(i)), k) <==> Bit(bits, k) || k == i
  {
    hide Bit, Or;
    OrBit(bits, Pow2(i), k);
    OrBit(Or(bits, Pow2(i)), Pow2(i), k);
    Pow2Bit(i, k);
  }

  lemma SendKeeps(n: nat, s: State, result: SendResult)
    requires Inv(n, s) && s.next < n && s.exit == Running
    ensures Inv(n, SendTo(s, result))
  {
    hide Bit, Or;
    var t := SendTo(s, result);
    var contact := result.Sent? || result.WriteFailed?;
    forall k: nat ensures Bit(t.syncBit, k) <==> Bit(s.syncBit, k) || (k == s.next && contact) {
      ContactBit(s.syncBit, s.next, k);
    }
    forall i | 0 <= i < n ensures SlaveInv(t, i) { assert SlaveInv(s, i); }
  }

  /** What SlaveInv needs from the answers: the same slaves with the same multiset of indices. */
  lemma SameAnswers(n: nat, s: State, t: State)
    requires Inv(n, s) && t.slaves == s.slaves && t.inbox == s.inbox && t.syncBit == s.syncBit && t.next == s.next
    requires multiset(t.answers + t.got) == multiset(s.answers + s.got)
    ensures forall i :: 0 <= i < n ==> SlaveInv(t, i)
    ensures forall k :: k in t.answers + t.got ==> k < n
  {
    hide Bit;
    forall i | 0 <= i < n ensures SlaveInv(t, i) { assert SlaveInv(s, i); }
    forall k | k in t.answers + t.got ensures k < n {
      assert k in multiset(s.answers + s.got);
      assert k in s.answers + s.got;
    }
  }

  lemma MovedAnswers(answers: seq<nat>, got: seq<nat>, count: nat)
    requires count <= |answers|
    ensures multiset(answers[count..] + (got + answers[..count])) == multiset(answers + got)
  {
    assert answers == answers[..count] + answers[count..];
  }

  lemma ReadKeeps(n: nat, s: State, count: nat)
    requires Inv(n, s) && s.exit == Running && count <= |s.answers|
    ensures Inv(n, ReadAnswers(s, count))
  {
    hide Bit, Record, SlaveInv;
    var t := ReadAnswers(s, count);
    MovedAnswers(s.answers, s.got, count);
    SameAnswers(n, s, t);
    forall k: nat ensures Bit(t.resBit, k) <==> k in t.got { RecordBits(s.resBit, s.answers[..count], k); }
  }

  lemma ExitKeeps(n: nat, s: State, exit: Exit)
    requires Inv(n, s) && (exit == AllReceived ==> s.syncBit == s.resBit && s.next == n)
    ensures Inv(n, s.(exit := exit))
  {
    hide Bit;
    SameAnswers(n, s, s.(exit := exit));
  }

  lemma CollectKeeps(n: nat, s: State, wake: Wake)
    requires Inv(n, s) && s.next == n && s.exit == Running && (wake.Ready? ==> 1 <= wake.count <= |s.answers|)
    ensures Inv(n, CollectOnce(s, wake))
  {
    var t := if wake.Ready? then ReadAnswers(s, wake.count) else s;
    if wake.Ready? { ReadKeeps(n, s, wake.count); }
    hide Inv;
    ExitKeeps(n, t, if wake.Timeout? then TimedOut else if t.syncBit == t.resBit then AllReceived else t.exit);
  }

  lemma AddedAnswer(answers: seq<nat>, got: seq<nat>, j: nat, k: nat)
    ensures multiset(answers + [j] + got)[k] == multiset(answers + got)[k] + (if k == j then 1 else 0)
    ensures k in answers + [j] + got <==> k == j || k in answers + got
  {
    assert multiset(answers + [j] + got) == multiset(answers + got) + multiset{j};
  }

  lemma AnswerKeepsSlave(n: nat, s: State, j: nat, i: nat)
    requires Inv(n, s) && j < n && i < n && s.slaves[j] == Informed
    ensures SlaveInv(Next(s, Answer(j)), i)
  {
    hide Bit;
    var t := Next(s, Answer(j));
    assert SlaveInv(s, j) && SlaveInv(s, i);
    assert multiset(t.answers + t.got)[i] == multiset(s.answers + s.got)[i] + (if i == j then 1 else 0) by {
      AddedAnswer(s.answers, s.got, j, i);
    }
  }

  lemma AnswerKeeps(n: nat, s: State, j: nat)
    requires Inv(n, s) && j < n && s.slaves[j] == Informed
    ensures Inv(n, Next(s, Answer(j)))
  {
    hide Bit, SlaveInv;
    var t := Next(s, Answer(j));
    forall i | 0 <= i < n ensures SlaveInv(t, i) { AnswerKeepsSlave(n, s, j, i); }
    forall k | k in t.answers + t.got ensures k < n { AddedAnswer(s.answers, s.got, j, k); }
  }

  lemma SlaveKeeps(n: nat, s: State, step: Step)
    requires Inv(n, s) && (step.Receive? || step.EndOfFile? || step.AnswerFails?) && Enabled(s, step)
    ensures Inv(n, Next(s, step))
  {
    hide Bit;
    var t := Next(s, step);
    forall i | 0 <= i < n ensures SlaveInv(t, i) { assert SlaveInv(s, i) && SlaveInv(s, step.slave); }
  }

  lemma {:induction false} RunKeepsInv(n: nat, steps: seq<Step>)
    requires Legal(n, steps)
    ensures Inv(n, After(n, steps))
    decreases |steps|
  {
    hide Inv, Next, SendTo, CollectOnce;
    if steps == [] {
      InitInv(n);
    } else {
      var before, step := steps[..|steps| - 1], steps[|steps| - 1];
      RunKeepsInv(n, before);
      NextKeepsInv(n, After(n, before), step);
    }
  }

  lemma NextKeepsInv(n: nat, s: State, step: Step)
    requires Inv(n, s) && Enabled(s, step)
    ensures Inv(n, Next(s, step))
  {
    match step
    case Send(result) => SendKeeps(n, s, result);
    case Collect(wake) => CollectKeeps(n, s, wake);
    case Answer(i) => AnswerKeeps(n, s, i);
    case _ => SlaveKeeps(n, s, step);
  }

  // ---- what every run guarantees --------------------------------------------------------------

  /** Only contacted slaves are ever recorded. */
  lemma RecordedWereContacted(n: nat, steps: seq<Step>, k: nat)
    requires Legal(n, steps) && Recorded(After(n, steps), k)
    ensures k < n && Contacted(After(n, steps), k)
  {
    RunKeepsInv(n, steps);
    var s := After(n, steps);
    hide Bit, After;
    assert k in s.answers + s.got;
    assert SlaveInv(s, k);
  }

  /** An answer that was given is in the FIFO or was read, exactly once; no other index ever appears. */
  lemma AnswersConserved(n: nat, steps: seq<Step>, k: nat)
    requires Legal(n, steps)
    ensures var s := After(n, steps);
      |s.slaves| == n
      && multiset(s.answers)[k] + multiset(s.got)[k] == (if k < n && s.slaves[k] == Answered then 1 else 0)
  {
    RunKeepsInv(n, steps);
    var s := After(n, steps);
    hide Bit, After;
    if k < n { assert SlaveInv(s, k); }
    assert k in s.answers || k in s.got <==> k in s.answers + s.got;
  }

  /** Leaving by the all-received exit means every contacted slave got the message and answered. */
  lemma AllReceivedMeansAnswered(n: nat, steps: seq<Step>, k: nat)
    requires Legal(n, steps) && After(n, steps).exit == AllReceived && Contacted(After(n, steps), k)
    ensures k < n == |After(n, steps).slaves| && After(n, steps).slaves[k] == Answered && k in After(n, steps).got
  {
    RunKeepsInv(n, steps);
    var s := After(n, steps);
    hide Bit, After;
    assert Recorded(s, k);
    assert k in s.answers + s.got;
    assert SlaveInv(s, k);
  }

  /** The two masks agree exactly when every contacted slave's answer has been read. */
  lemma MasksAgreeIff(n: nat, steps: seq<Step>)
    requires Legal(n, steps)
    ensures var s := After(n, steps);
      s.syncBit == s.resBit <==> forall k: nat :: Contacted(s, k) ==> k in s.got
  {
    RunKeepsInv(n, steps);
    var s := After(n, steps);
    if forall k: nat :: Contacted(s, k) ==> k in s.got {
      forall k: nat ensures Bit(s.syncBit, k) == Bit(s.resBit, k) {
        if Recorded(s, k) { RecordedWereContacted(n, steps, k); }
        assert Recorded(s, k) <==> k in s.got;
        assert Contacted(s, k) ==> k in s.got;
      }
      BitsDetermine(s.syncBit, s.resBit);
    } else {
      var k: nat :| Contacted(s, k) && k !in s.got;
      assert !Recorded(s, k);
    }
  }

  // ---- when the all-received exit can still be reached ------------------------------------------

  /** Slave i counts as contacted, but it left, or waits for a message that will never come. */
  ghost predicate Unreached(s: State, i: nat) {
    && i < |s.slaves| == |s.inbox| && i < s.next && Bit(s.syncBit, i)
    && (s.slaves[i] == Left || (s.slaves[i] == Waiting && s.inbox[i] == 0))
  }

  lemma UnreachedStays(s: State, step: Step, i: nat)
    requires Enabled(s, step) && Unreached(s, i)
    ensures Unreached(Next(s, step), i)
  {
    hide Bit, Or;
    if step.Send? { ContactBit(s.syncBit, s.next, i); }
  }

  lemma FailedWriteMisses(n: nat, s: State)
    requires Inv(n, s) && Enabled(s, Send(WriteFailed))
    ensures Unreached(Next(s, Send(WriteFailed)), s.next)
  {
    hide Bit, Or;
    assert SlaveInv(s, s.next);
    ContactBit(s.syncBit, s.next, s.next);
  }

  lemma OneMoreStep(n: nat, steps: seq<Step>, step: Step)
    requires Legal(n, steps)
    ensures Legal(n, steps + [step]) <==> Enabled(After(n, steps), step)
    ensures Legal(n, steps + [step]) ==> After(n, steps + [step]) == Next(After(n, steps), step)
  {
    hide Enabled, Next;
    assert (steps + [step])[..|steps|] == steps;
  }

  lemma {:induction false} UnreachedForGood(n: nat, steps: seq<Step>, more: seq<Step>, i: nat)
    requires Legal(n, steps) && Unreached(After(n, steps), i) && Legal(n, steps + more)
    ensures Unreached(After(n, steps + more), i)
    decreases |more|
  {
    hide Enabled, Next, Unreached;
    if more == [] {
      assert steps + more == steps;
    } else {
      var last := |more| - 1;
      assert (steps + more)[..|steps + more| - 1] == steps + more[..last];
      assert steps + more == (steps + more[..last]) + [more[last]];
      UnreachedForGood(n, steps, more[..last], i);
      OneMoreStep(n, steps + more[..last], more[last]);
      UnreachedStays(After(n, steps + more[..last]), more[last], i);
    }
  }

  /** Every contacted slave has answered, holds the message, or has it waiting in its FIFO. */
  ghost predicate AllCanAnswer(s: State) {
    forall i :: 0 <= i < |s.slaves| == |s.inbox| && Bit(s.syncBit, i) ==> CanAnswer(s, i)
  }

  ghost predicate CanAnswer(s: State, i: nat)
    requires i < |s.slaves| == |s.inbox|
  {
    s.slaves[i] == Answered || s.slaves[i] == Informed || (s.slaves[i] == Waiting && s.inbox[i] > 0)
  }

  ghost predicate Finishes(n: nat, steps: seq<Step>, more: seq<Step>, exit: Exit) {
    Legal(n, steps + more) && After(n, steps + more).exit == exit
  }

  /** A slave that can answer does the next thing on its way, without spoiling another one's chance. */
  lemma SlaveMoves(n: nat, s: State, i: nat) returns (step: Step)
    requires Inv(n, s) && AllCanAnswer(s) && i < n
      && (s.slaves[i] == Informed || (s.slaves[i] == Waiting && s.inbox[i] > 0))
    ensures step == (if s.slaves[i] == Informed then Answer(i) else Receive(i)) && Enabled(s, step)
    ensures AllCanAnswer(Next(s, step))
  {
    hide Bit;
    step := if s.slaves[i] == Informed then Answer(i) else Receive(i);
  }

  lemma CollectKeepsChances(s: State, count: nat)
    requires AllCanAnswer(s) && count <= |s.answers|
    ensures AllCanAnswer(CollectOnce(s, Ready(count)))
  {
    hide Bit, Record;
  }

  /** When all contacted slaves have answered and all answers are read, the masks agree. */
  lemma AllReadMeansAgree(n: nat, s: State)
    requires Inv(n, s) && s.answers == []
    requires forall i :: 0 <= i < n && Bit(s.syncBit, i) ==> s.slaves[i] == Answered
    ensures s.syncBit == s.resBit
  {
    hide Or;
    forall k: nat ensures Bit(s.syncBit, k) == Bit(s.resBit, k) {
      if k < n { assert SlaveInv(s, k); }
      assert k in s.answers + s.got <==> k in s.got;
      if Bit(s.syncBit, k) { assert k < n && s.slaves[k] == Answered && k in multiset(s.answers + s.got); }
    }
    BitsDetermine(s.syncBit, s.resBit);
  }

  ghost function Rest(n: nat, s: State): (r: (nat, nat, nat, nat)) {
    (if s.next <= n then n - s.next else 0, multiset(s.slaves)[Waiting], multiset(s.slaves)[Informed], |s.answers|)
  }

  ghost predicate StepsForward(n: nat, s: State, step: Step)
    requires Enabled(s, step)
  {
    var t := Next(s, step);
    || t.exit == AllReceived
    || (t.exit == Running && AllCanAnswer(t) && Less(Rest(n, t), Rest(n, s)))
  }

  lemma SlaveProgress(n: nat, s: State, i: nat) returns (step: Step)
    requires Inv(n, s) && s.exit == Running && AllCanAnswer(s) && i < n
    requires s.slaves[i] == Informed || (s.slaves[i] == Waiting && s.inbox[i] > 0)
    ensures Enabled(s, step) && StepsForward(n, s, step)
  {
    step := SlaveMoves(n, s, i);
    hide Inv, AllCanAnswer;
  }

  lemma CollectProgress(n: nat, s: State) returns (step: Step)
    requires Inv(n, s) && s.exit == Running && AllCanAnswer(s) && s.next == n && s.answers != []
    ensures Enabled(s, step) && StepsForward(n, s, step)
  {
    var count := if |s.answers| <= READ_LIMIT then |s.answers| else READ_LIMIT;
    step := Collect(Ready(count));
    CollectKeepsChances(s, count);
    hide SlaveInv, AllCanAnswer, Bit;
  }

  /** Some step towards the all-received exit. */
  lemma Progress(n: nat, s: State) returns (step: Step)
    requires Inv(n, s) && s.exit == Running && AllCanAnswer(s)
    ensures Enabled(s, step) && StepsForward(n, s, step)
  {
    hide Bit, SlaveInv;
    if s.next < n {
      step := Send(Absent);
    } else if i :| 0 <= i < n && (s.slaves[i] == Informed || (s.slaves[i] == Waiting && s.inbox[i] > 0)) {
      step := SlaveProgress(n, s, i);
    } else if s.answers != [] {
      step := CollectProgress(n, s);
    } else {
      step := Collect(Failed);
      AllReadMeansAgree(n, s);
    }
  }

  ghost predicate Less(a: (nat, nat, nat, nat), b: (nat, nat, nat, nat)) {
    || a.0 < b.0
    || (a.0 == b.0 && a.1 < b.1)
    || (a.0 == b.0 && a.1 == b.1 && a.2 < b.2)
    || (a.0 == b.0 && a.1 == b.1 && a.2 == b.2 && a.3 < b.3)
  }

  lemma {:induction false} Finish(n: nat, steps: seq<Step>) returns (more: seq<Step>)
    requires Legal(n, steps) && After(n, steps).exit == Running && AllCanAnswer(After(n, steps))
    ensures Finishes(n, steps, more, AllReceived)
    decreases Rest(n, After(n, steps)).0, Rest(n, After(n, steps)).1,
      Rest(n, After(n, steps)).2, Rest(n, After(n, steps)).3
  {
    hide Inv, Enabled, Next, AllCanAnswer, Rest;
    RunKeepsInv(n, steps);
    var step := Progress(n, After(n, steps));
    OneMoreStep(n, steps, step);
    if After(n, steps + [step]).exit == AllReceived {
      more := [step];
    } else {
      var rest := Finish(n, steps + [step]);
      more := [step] + rest;
      assert steps + more == steps + [step] + rest;
    }
  }

  /** The all-received exit can still be reached if and only if every contacted slave can still answer. */
  lemma AllReceivedReachableIff(n: nat, steps: seq<Step>)
    requires Legal(n, steps) && After(n, steps).exit == Running
    ensures (exists more :: Finishes(n, steps, more, AllReceived)) <==> AllCanAnswer(After(n, steps))
  {
    hide Bit, After, Legal;
    var s := After(n, steps);
    RunKeepsInv(n, steps);
    if AllCanAnswer(s) {
      var more := Finish(n, steps);
    } else {
      var i :| 0 <= i < |s.slaves| == |s.inbox| && Bit(s.syncBit, i) && !CanAnswer(s, i);
      assert Unreached(s, i);
      forall more ensures !Finishes(n, steps, more, AllReceived) {
        if Finishes(n, steps, more, AllReceived) { NotWithUnreached(n, steps, more, i); }
      }
    }
  }

  lemma NotWithUnreached(n: nat, steps: seq<Step>, more: seq<Step>, i: nat)
    requires Legal(n, steps) && Unreached(After(n, steps), i) && Legal(n, steps + more)
    ensures After(n, steps + more).exit != AllReceived
  {
    hide Bit, After, Legal;
    UnreachedForGood(n, steps, more, i);
    if After(n, steps + more).exit == AllReceived { AllReceivedMeansAnswered(n, steps + more, i); }
  }

  /** With no slave contacted, only a pass in which select fails can leave by the all-received exit. */
  lemma {:induction false} NoContactExit(n: nat, steps: seq<Step>)
    requires Legal(n, steps) && After(n, steps).exit == AllReceived && After(n, steps).syncBit == 0
    ensures Collect(Failed) in steps
    decreases |steps|
  {
    var before, step := steps[..|steps| - 1], steps[|steps| - 1];
    var s := After(n, before);
    if s.exit == AllReceived {
      NoContactExit(n, before);
    } else if step != Collect(Failed) {
      FirstReadIsContact(n, steps);
    }
  }

  lemma FirstReadIsContact(n: nat, steps: seq<Step>)
    requires Legal(n, steps) && After(n, steps).got != []
    ensures After(n, steps).syncBit != 0
  {
    hide After, Legal, Bit;
    RunKeepsInv(n, steps);
    var s := After(n, steps);
    var k := s.got[0];
    assert Recorded(s, k);
    RecordedWereContacted(n, steps, k);
    ZeroHasNoBits(k);
  }

  /** After a write that failed the master never leaves by the all-received exit. */
  lemma FailedWriteNeverAllReceived(n: nat, steps: seq<Step>, more: seq<Step>)
    requires Legal(n, steps) && Enabled(After(n, steps), Send(WriteFailed))
    requires Legal(n, steps + [Send(WriteFailed)] + more)
    ensures After(n, steps + [Send(WriteFailed)] + more).exit != AllReceived
  {
    hide Inv, Enabled, Next, Unreached, After, Legal;
    RunKeepsInv(n, steps);
    OneMoreStep(n, steps, Send(WriteFailed));
    FailedWriteMisses(n, After(n, steps));
    NotWithUnreached(n, steps + [Send(WriteFailed)], more, After(n, steps).next);
  }

  lemma TimeoutStep(n: nat, s: State) returns (step: Step)
    requires Inv(n, s) && s.exit == Running
    ensures Enabled(s, step)
    ensures var t := Next(s, step); t.exit == TimedOut || (t.exit == Running && n - t.next < n - s.next)
  {
    hide Bit, Or, SlaveInv;
    step := if s.next < n then Send(Absent) else Collect(Timeout);
  }

  /** Every run that is still going can end by timeout, whatever was sent and answered. */
  lemma {:induction false} TimeoutStaysPossible(n: nat, steps: seq<Step>) returns (more: seq<Step>)
    requires Legal(n, steps) && After(n, steps).exit == Running
    ensures Finishes(n, steps, more, TimedOut)
    decreases n - After(n, steps).next
  {
    hide Inv, Enabled, Next;
    RunKeepsInv(n, steps);
    NextInRange(n, After(n, steps));
    var step := TimeoutStep(n, After(n, steps));
    OneMoreStep(n, steps, step);
    if After(n, steps + [step]).exit == TimedOut {
      more := [step];
    } else {
      var rest := TimeoutStaysPossible(n, steps + [step]);
      more := [step] + rest;
      assert steps + more == steps + [step] + rest;
    }
  }

  lemma NextInRange(n: nat, s: State)
    requires Inv(n, s)
    ensures s.next <= n
  {
  }

  /** A run whose only write fails: the slave is contacted, never informed, and the master leaves by timeout. */
  lemma FailedWriteRun(steps: seq<Step>)
    requires steps == [Send(WriteFailed), Collect(Timeout)]
    ensures Legal(1, steps) && After(1, steps).exit == TimedOut
    ensures Contacted(After(1, steps), 0) && After(1, steps).slaves == [Waiting]
  {
    hide Or, Bit;
    var first := [Send(WriteFailed)];
    assert first == [] + [Send(WriteFailed)] && steps == first + [Collect(Timeout)];
    OneMoreStep(1, [], Send(WriteFailed));
    OneMoreStep(1, first, Collect(Timeout));
    ContactBit(0, 0, 0);
  }

  // ---- what the steps bring about -----------------------------------------------------------------

  /** A pass that read answers leaves by the all-received exit if and only if all contacted slaves have been read. */
  lemma ReadPassExit(n: nat, steps: seq<Step>, count: nat)
    requires Legal(n, steps) && Legal(n, steps + [Collect(Ready(count))])
    ensures var t := After(n, steps + [Collect(Ready(count))]);
      t.exit == AllReceived <==> forall k: nat :: Contacted(t, k) ==> k in t.got
  {
    OneMoreStep(n, steps, Collect(Ready(count)));
    MasksAgreeIff(n, steps + [Collect(Ready(count))]);
    hide Legal, After, Contacted;
  }

  /** A pass reads at least one answer and at most 32. */
  lemma {:induction false} ReadsAtMost32(n: nat, steps: seq<Step>, j: nat, count: nat)
    requires Legal(n, steps) && j < |steps| && steps[j] == Collect(Ready(count))
    ensures 1 <= count <= 32
    decreases |steps|
  {
    if j < |steps| - 1 { ReadsAtMost32(n, steps[..|steps| - 1], j, count); }
  }

  /** No write failed, no slave saw the end of its FIFO, and no answer failed. */
  ghost predicate Clean(steps: seq<Step>) {
    forall step :: step in steps ==> step != Send(WriteFailed) && !step.EndOfFile? && !step.AnswerFails?
  }

  ghost predicate NoneLeft(s: State) {
    forall i :: 0 <= i < |s.slaves| ==> s.slaves[i] != Left
  }

  lemma CleanStep(n: nat, s: State, step: Step)
    requires Inv(n, s) && Enabled(s, step) && AllCanAnswer(s) && NoneLeft(s)
    requires step != Send(WriteFailed) && !step.EndOfFile? && !step.AnswerFails?
    ensures AllCanAnswer(Next(s, step)) && NoneLeft(Next(s, step))
  {
    hide Bit, Or, Record;
    if step == Send(Sent) {
      assert SlaveInv(s, s.next);
      forall k: nat ensures Bit(Next(s, step).syncBit, k) <==> Bit(s.syncBit, k) || k == s.next {
        ContactBit(s.syncBit, s.next, k);
      }
    }
  }

  lemma {:induction false} CleanRunCanAnswer(n: nat, steps: seq<Step>)
    requires Legal(n, steps) && Clean(steps)
    ensures AllCanAnswer(After(n, steps)) && NoneLeft(After(n, steps))
    decreases |steps|
  {
    if steps == [] {
      forall k: nat ensures !Bit(0, k) { ZeroHasNoBits(k); }
    } else {
      hide Inv, Enabled, Next, AllCanAnswer, NoneLeft;
      var before := steps[..|steps| - 1];
      RunKeepsInv(n, before);
      CleanRunCanAnswer(n, before);
      assert steps[|steps| - 1] in steps;
      CleanStep(n, After(n, before), steps[|steps| - 1]);
    }
  }

  /** From the steps alone: a clean run that is still going can end by the all-received exit. */
  lemma CleanRunCanFinish(n: nat, steps: seq<Step>)
    requires Legal(n, steps) && After(n, steps).exit == Running
    requires forall step :: step in steps ==> step != Send(WriteFailed) && !step.EndOfFile? && !step.AnswerFails?
    ensures exists more :: Finishes(n, steps, more, AllReceived)
  {
    hide Legal, After, AllCanAnswer, Finishes;
    CleanRunCanAnswer(n, steps);
    AllReceivedReachableIff(n, steps);
  }

  /** How a step changes slave i: only its own steps do, and leaving is for good. */
  lemma SlaveChange(s: State, step: Step, i: nat)
    requires Enabled(s, step) && i < |s.slaves|
    ensures var t := Next(s, step);
      && |t.slaves| == |s.slaves|
      && (step == EndOfFile(i) || step == AnswerFails(i) || s.slaves[i] == Left ==> t.slaves[i] == Left)
      && (t.slaves[i] == Informed ==> step == Receive(i) || s.slaves[i] == Informed)
      && (t.slaves[i] == Answered ==> s.slaves[i] == Answered || (step == Answer(i) && s.slaves[i] == Informed))
  {
    hide Or, Record, Bit;
  }

  lemma {:induction false} SlaveCount(n: nat, steps: seq<Step>)
    requires Legal(n, steps)
    ensures |After(n, steps).slaves| == n
  {
    RunKeepsInv(n, steps);
  }

  /** A slave that saw the end of its FIFO, or failed to answer, never answers. */
  lemma {:induction false} GoneForGood(n: nat, steps: seq<Step>, i: nat)
    requires Legal(n, steps) && (EndOfFile(i) in steps || AnswerFails(i) in steps)
    ensures i < n == |After(n, steps).slaves| && After(n, steps).slaves[i] == Left
    decreases |steps|
  {
    hide Next;
    var before, step := steps[..|steps| - 1], steps[|steps| - 1];
    assert steps == before + [step];
    SlaveCount(n, steps);
    SlaveCount(n, before);
    if EndOfFile(i) in before || AnswerFails(i) in before { GoneForGood(n, before, i); }
    SlaveChange(After(n, before), step, i);
  }

  /** A slave that holds the message has read it, and one that answered has read it and written its answer. */
  lemma {:induction false} AnsweredHasReceived(n: nat, steps: seq<Step>, i: nat)
    requires Legal(n, steps) && i < n == |After(n, steps).slaves|
    ensures After(n, steps).slaves[i] == Informed || After(n, steps).slaves[i] == Answered ==> Receive(i) in steps
    ensures After(n, steps).slaves[i] == Answered ==> Answer(i) in steps
    decreases |steps|
  {
    if steps != [] {
      hide Next, Enabled;
      var before, step := steps[..|steps| - 1], steps[|steps| - 1];
      assert steps == before + [step];
      SlaveCount(n, before);
      AnsweredHasReceived(n, before, i);
      SlaveChange(After(n, before), step, i);
    }
  }

  /** Answers are read in the order in which they were given. */
  lemma AnswersInOrder(s: State, step: Step)
    requires Enabled(s, step)
    ensures var t := Next(s, step);
      t.got + t.answers == s.got + s.answers + (if step.Answer? then [step.slave] else [])
  {
    hide Or, Record;
    if step.Collect? && step.wake.Ready? {
      assert s.answers == s.answers[..step.wake.count] + s.answers[step.wake.count..];
    }
  }

  // ---- a run in which all goes well -----------------------------------------------------------------

  /** After k sends, r receipts and a answers: what every slave has, and the indices waiting in the master's FIFO. */
  ghost predicate Underway(n: nat, s: State, k: nat, r: nat, a: nat) {
    && |s.slaves| == |s.inbox| == n && s.next == k <= n && s.exit == Running && a <= r <= k && s.got == []
    && s.answers == seq(a, i requires 0 <= i < a => i)
    && (forall i :: 0 <= i < n ==> s.inbox[i] == if r <= i < k then 1 else 0)
    && (forall i :: 0 <= i < n ==> s.slaves[i] == if i < a then Answered else if i < r then Informed else Waiting)
    && (forall i: nat :: Bit(s.syncBit, i) <==> i < k)
  }

  function Sends(k: nat): seq<Step> { seq(k, _ => Send(Sent)) }
  function Receipts(k: nat): seq<Step> { seq(k, i requires 0 <= i < k => Receive(i)) }
  function Answers(k: nat): seq<Step> { seq(k, i requires 0 <= i < k => Answer(i)) }

  lemma UnderwayStep(n: nat, s: State, k: nat, r: nat, a: nat)
    requires Underway(n, s, k, r, a)
    ensures k < n ==> Enabled(s, Send(Sent)) && Underway(n, Next(s, Send(Sent)), k + 1, r, a)
    ensures r < k ==> Enabled(s, Receive(r)) && Underway(n, Next(s, Receive(r)), k, r + 1, a)
    ensures a < r ==> Enabled(s, Answer(a)) && Underway(n, Next(s, Answer(a)), k, r, a + 1)
  {
    hide Bit, Or;
    forall i: nat ensures Bit(Or(Or(s.syncBit, Pow2(k)), Pow2(k)), i) <==> Bit(s.syncBit, i) || i == k {
      ContactBit(s.syncBit, k, i);
    }
    assert s.answers + [a] == seq(a + 1, i requires 0 <= i < a + 1 => i);
  }

  lemma {:induction false} UnderwayRun(n: nat, k: nat, r: nat, a: nat)
    requires a <= r <= k <= n && (r > 0 ==> k == n) && (a > 0 ==> r == n)
    ensures Legal(n, Sends(k) + Receipts(r) + Answers(a))
    ensures Underway(n, After(n, Sends(k) + Receipts(r) + Answers(a)), k, r, a)
    decreases k + r + a
  {
    if k == 0 {
      UnderwayAtFirst(n);
    } else {
      hide Underway, Enabled, Next, Inv, After, Legal;
      var k', r', a' := if r == 0 then k - 1 else k, if r > 0 && a == 0 then r - 1 else r, if a > 0 then a - 1 else 0;
      var last := if a > 0 then Answer(a - 1) else if r > 0 then Receive(r - 1) else Send(Sent);
      var before := Sends(k') + Receipts(r') + Answers(a');
      UnderwayRun(n, k', r', a');
      LastStep(k, r, a, before, last);
      UnderwayStep(n, After(n, before), k', r', a');
      OneMoreStep(n, before, last);
    }
  }

  lemma UnderwayAtFirst(n: nat)
    ensures Legal(n, Sends(0) + Receipts(0) + Answers(0))
    ensures Underway(n, After(n, Sends(0) + Receipts(0) + Answers(0)), 0, 0, 0)
  {
    assert Sends(0) + Receipts(0) + Answers(0) == [];
    forall i: nat ensures !Bit(0, i) { ZeroHasNoBits(i); }
  }

  lemma LastStep(k: nat, r: nat, a: nat, before: seq<Step>, last: Step)
    requires k > 0
    requires a > 0 ==> before == Sends(k) + Receipts(r) + Answers(a - 1) && last == Answer(a - 1)
    requires a == 0 && r > 0 ==> before == Sends(k) + Receipts(r - 1) + Answers(0) && last == Receive(r - 1)
    requires a == 0 && r == 0 ==> before == Sends(k - 1) + Receipts(0) + Answers(0) && last == Send(Sent)
    ensures Sends(k) + Receipts(r) + Answers(a) == before + [last]
  {
    if a > 0 {
      assert Answers(a) == Answers(a - 1) + [last];
    } else if r > 0 {
      assert Receipts(r) == Receipts(r - 1) + [last] && Answers(0) == [];
    } else {
      assert Sends(k) == Sends(k - 1) + [last] && Receipts(0) == [] && Answers(0) == [];
    }
  }

  /** Reading m answers, 32 at a time. */
  function Reads(m: nat): (r: seq<Step>)
    ensures |r| == (m + 31) / 32
  {
    if m == 0 then []
    else if m <= 32 then [Collect(Ready(m))]
    else [Collect(Ready(32))] + Reads(m - 32)
  }

  /** Only answers are still to be read. */
  ghost predicate OnlyAnswersLeft(n: nat, s: State, m: nat) {
    && |s.slaves| == n && s.next == n && s.exit == Running && |s.answers| == m
    && forall i :: 0 <= i < n ==> s.slaves[i] == Answered && Contacted(s, i)
  }

  lemma ReadSome(n: nat, s: State, m: nat, count: nat)
    requires Inv(n, s) && OnlyAnswersLeft(n, s, m) && 1 <= count <= m && count <= 32
    ensures Enabled(s, Collect(Ready(count)))
    ensures var t := Next(s, Collect(Ready(count)));
      && t.slaves == s.slaves && t.syncBit == s.syncBit
      && if count == m then t.exit == AllReceived else OnlyAnswersLeft(n, t, m - count)
  {
    var t := ReadAnswers(s, count);
    ReadKeeps(n, s, count);
    if count == m {
      AllReadMeansAgree(n, t);
    } else {
      StillWaiting(n, t, s.answers[count]);
    }
  }

  /** An answer in the FIFO keeps the masks apart. */
  lemma StillWaiting(n: nat, t: State, k: nat)
    requires Inv(n, t) && k in t.answers
    ensures t.syncBit != t.resBit
  {
    hide Bit;
    assert k in t.answers + t.got;
    assert SlaveInv(t, k);
    OnceOnly(t.answers, t.got, k);
  }

  lemma OnceOnly(answers: seq<nat>, got: seq<nat>, k: nat)
    requires multiset(answers + got)[k] <= 1 && k in answers
    ensures k !in got
  {
    assert multiset(answers + got) == multiset(answers) + multiset(got);
  }

  lemma {:induction false} ReadAll(n: nat, steps: seq<Step>, m: nat)
    requires m >= 1 && Legal(n, steps) && OnlyAnswersLeft(n, After(n, steps), m)
    ensures Legal(n, steps + Reads(m)) && After(n, steps + Reads(m)).exit == AllReceived
    ensures After(n, steps + Reads(m)).slaves == After(n, steps).slaves
    decreases m
  {
    hide Inv, Enabled, Next, OnlyAnswersLeft;
    var count := if m <= 32 then m else 32;
    var step := Collect(Ready(count));
    RunKeepsInv(n, steps);
    ReadSome(n, After(n, steps), m, count);
    OneMoreStep(n, steps, step);
    if m > 32 {
      ReadAll(n, steps + [step], m - 32);
      assert steps + [step] + Reads(m - 32) == steps + Reads(m);
    }
  }

  /** For every number of slaves there is a run in which all are sent to, all answer, and the master leaves at once. */
  lemma FullRun(n: nat) returns (steps: seq<Step>)
    requires n >= 1
    ensures Legal(n, steps) && After(n, steps).exit == AllReceived && |steps| == 3 * n + (n + 31) / 32
    ensures forall j :: 0 <= j < n ==> steps[j] == Send(Sent)
    ensures After(n, steps).slaves == seq(n, _ => Answered)
  {
    var done := Sends(n) + Receipts(n) + Answers(n);
    UnderwayRun(n, n, n, n);
    var s := After(n, done);
    assert OnlyAnswersLeft(n, s, n) && s.slaves == seq(n, _ => Answered);
    hide After, Legal, Underway;
    ReadAll(n, done, n);
    steps := done + Reads(n);
  }
}
