/** The incremental parser: it buffers arbitrary segments and turns them into finished messages. */
module HttpMessageSequences {
  import opened Text
  import opened MessageSpec
  import opened SequenceSpec
  import Spec = SequenceSpec
  import opened HttpMessages

  datatype Next = Again | Enough | StepThrew

  class HttpMessageSequence {
    const kind: Kind
    var buffer: string
    var completeMessages: seq<Message>
    var messageInProgress: HttpMessage
    /** For responses: whether each outstanding request was a HEAD request. */
    var requestsWereHead: seq<bool>

    ghost function Repr(): set<object>
      reads this, messageInProgress
    {
      {this} + messageInProgress.Repr()
    }

    ghost predicate Valid()
      reads Repr()
    {
      messageInProgress.kind == kind
    }

    ghost function View(): Parser
      reads Repr()
    {
      Parser(kind, buffer, messageInProgress.View(), completeMessages, requestsWereHead)
    }

    constructor (kind: Kind)
      ensures Valid() && View() == NewParser(kind, []) && fresh(Repr())
    {
      this.kind := kind;
      buffer, completeMessages, requestsWereHead := "", [], [];
      messageInProgress := new HttpMessage(kind);
    }

    /** A request was forwarded: remember whether its response comes without a body. */
    method NewRequestArrived(isHead: bool)
      requires Valid()
      modifies this`requestsWereHead
      ensures Valid() && View() == old(View()).(heads := old(requestsWereHead) + [isHead])
      ensures Repr() == old(Repr())
    {
      requestsWereHead := requestsWereHead + [isHead];
    }

    method PopLine() returns (line: string)
      requires Find(buffer, CRLF) != -1
      modifies this`buffer
      ensures line == old(buffer)[..Find(old(buffer), CRLF)]
      ensures buffer == old(buffer)[Find(old(buffer), CRLF) + 2..]
    {
      var end := Find(buffer, CRLF);
      line := buffer[..end];
      buffer := buffer[end + 2..];
    }

    method ParsingStep() returns (r: Next)
      requires Valid()
      modifies Repr()
      ensures match Step(old(View()))
        case Go(p) => r == Again && Valid() && View() == p && fresh(Repr() - old(Repr()))
        case Stop(p) => r == Enough && Valid() && View() == p && fresh(Repr() - old(Repr()))
        case Fail => r == StepThrew
    {
      match messageInProgress.state
      case FirstLinePending => r := FirstLineStep();
      case HeadersPending => r := HeaderStep();
      case BodyPending => r := BodyStep();
      case Complete =>
        completeMessages := completeMessages + [Finished(messageInProgress)];
        messageInProgress := new HttpMessage(kind);
        r := Again;
    }

    /** The finished message, moved out of the object that built it. */
    static function Finished(m: HttpMessage): (v: Message)
      requires m.state.Complete?
      reads m, m.Repr()
      ensures v == m.View()
    {
      Message(m.kind, m.state, m.firstLine, m.headers, m.body, m.sizeKnown, m.expectedBodySize,
              m.requestWasHead, NoParser)
    }

    method FirstLineStep() returns (r: Next)
      requires Valid() && messageInProgress.state.FirstLinePending?
      modifies Repr()
      ensures match Step(old(View()))
        case Go(p) => r == Again && Valid() && View() == p && Repr() == old(Repr())
        case Stop(p) => r == Enough && Valid() && View() == p && Repr() == old(Repr())
        case Fail => r == StepThrew
    {
      hide Find;
      ghost var p := View();
      if Find(buffer, CRLF) == -1 {
        assert Step(p) == Stop(p);
        return Enough;
      }
      if kind == Response {
        if requestsWereHead == [] { return StepThrew; }
        if requestsWereHead[0] { messageInProgress.SetRequestWasHead(); }
        requestsWereHead := requestsWereHead[1..];
      }
      var line := PopLine();
      messageInProgress.SetFirstLine(line);
      assert Step(p) == Go(StartMessage(p, line, buffer));
      r := Again;
    }

    method HeaderStep() returns (r: Next)
      requires Valid() && messageInProgress.state.HeadersPending?
      modifies Repr()
      ensures match Step(old(View()))
        case Go(p) => r == Again && Valid() && View() == p && fresh(Repr() - old(Repr()))
        case Stop(p) => r == Enough && Valid() && View() == p && Repr() == old(Repr())
        case Fail => r == StepThrew
    {
      hide Find, DoneWithHeaders;
      if Find(buffer, CRLF) == -1 { return Enough; }
      var line := PopLine();
      var ok;
      if line == "" {
        ok := messageInProgress.DoneWithHeaders();
      } else {
        ok := messageInProgress.AddHeader(line);
      }
      r := if ok then Again else StepThrew;
    }

    method BodyStep() returns (r: Next)
      requires Valid() && messageInProgress.state.BodyPending?
      modifies Repr()
      ensures match Step(old(View()))
        case Go(p) => r == Again && Valid() && View() == p && Repr() == old(Repr())
        case Stop(p) => r == Enough && Valid() && View() == p && Repr() == old(Repr())
        case Fail => r == StepThrew
    {
      hide Find, MessageSpec.ReadInBody;
      var answer := messageInProgress.ReadInBody(buffer);
      if answer.BodyThrew? { return StepThrew; }
      var complete := messageInProgress.state.Complete?;
      if answer.n > |buffer| || (answer.n != |buffer| && !complete) { return StepThrew; }
      buffer := buffer[answer.n..];
      r := if complete then Again else Enough;
    }

    /** Accept a segment, or the end of the input when it is empty. False where the code throws. */
    method Parse(buf: string) returns (ok: bool)
      requires Valid()
      modifies Repr()
      ensures match Spec.Parse(old(View()), buf)
        case Ok(p) => ok && Valid() && View() == p && fresh(Repr() - old(Repr()))
        case Error => !ok
    {
      hide Step;
      if buf == "" {
        ok := messageInProgress.Eof();
        if !ok { return; }
      }
      buffer := buffer + buf;
      assert buf == "" ==> buffer == old(buffer);
      ghost var p0 := View();
      assert Spec.Parse(old(View()), buf) == Run(p0);
      var r := Again;
      while r == Again
        invariant Valid() && fresh(Repr() - old(Repr()))
        invariant r == Again ==> Run(p0) == Run(View())
        invariant r == Enough ==> Run(p0) == Ok(View())
        invariant r != StepThrew
        decreases r == Again, |buffer|, Rank(messageInProgress.state)
      {
        ghost var p := View();
        if Step(p).Go? { StepDecreases(p); }
        r := ParsingStep();
        if r == StepThrew { return false; }
      }
      ok := true;
    }
  }
}
