/**
 * One connection of src/tcp_server.cpp: bytes arrive in chunks, commands are cut out of
 * them and executed, and replies leave in whatever pieces the socket takes.
 */
module Stream {
  import opened Text
  import opened Resp
  import opened SystemCalls

  // ---------------------------------------------------------------
  // What a connection comes to
  // ---------------------------------------------------------------

  /** What executing one command makes of the server, and whether the connection is to close. */
  datatype Outcome<S> = Outcome(state: S, close: bool)

  /** A server, as far as a connection can tell: a state, and what a command makes of it. */
  type Machine<!S> = (S, Command) -> Outcome<S>

  /** The server, the bytes not yet used, whether the connection is closing, and over which error. */
  datatype Session<S> = Session(state: S, pending: string, closing: bool, error: Option<ProtocolError>)

  /** One complete command has been cut off the pending bytes; an empty one is not executed. */
  function Dispatched<S>(s: Session<S>, machine: Machine<S>, arguments: Command, consumed: nat): Session<S>
    requires consumed <= |s.pending|
  {
    if arguments == [] then s.(pending := s.pending[consumed..])
    else
      var outcome := machine(s.state, arguments);
      s.(state := outcome.state, pending := s.pending[consumed..], closing := outcome.close)
  }

  /** All complete commands, until none is left or the connection closes. */
  function Boundary<S>(s: Session<S>, machine: Machine<S>): (r: Session<S>)
    ensures |r.pending| <= |s.pending|
    ensures !r.closing ==> !Parse(r.pending).Complete?
    decreases |s.pending|
  {
    var parsed := Parse(s.pending);
    if s.closing || !parsed.Complete? then s
    else Boundary(Dispatched(s, machine, parsed.arguments, parsed.consumed), machine)
  }

  /** Malformed input is answered once, and closes the connection. */
  function Finish<S>(s: Session<S>): Session<S> {
    var parsed := Parse(s.pending);
    if s.closing || !parsed.Error? then s
    else s.(error := Some(parsed.error), closing := true)
  }

  function Receiving<S>(s: Session<S>, chunk: string): Session<S> {
    s.(pending := s.pending + chunk)
  }

  /** A chunk arrives and is processed as far as it goes. */
  function Feed<S>(s: Session<S>, chunk: string, machine: Machine<S>): Session<S> {
    Finish(Boundary(Receiving(s, chunk), machine))
  }

  function ErrorReply(error: ProtocolError): string {
    "-ERR " + Describe(error) + "\r\n"
  }

  lemma EmptyIncomplete()
    ensures Parse("").Incomplete?
  {
  }

  lemma BoundaryStep<S>(s: Session<S>, machine: Machine<S>)
    ensures Boundary(s, machine) ==
            var parsed := Parse(s.pending);
            if s.closing || !parsed.Complete? then s
            else Boundary(Dispatched(s, machine, parsed.arguments, parsed.consumed), machine)
  {
    hide Parse;
  }

  // ---------------------------------------------------------------
  // The connection object
  // ---------------------------------------------------------------

  class Client {
    var input: string
    var output: string
    var outputOffset: nat
    var closeAfterWrite: bool
    /** Bytes the socket has taken, and all bytes that were ever meant for it. */
    ghost var sent: string
    ghost var replies: string
    /** The commands executed for this connection. */
    ghost var commands: seq<Command>

    /** What was sent and what is pending are together exactly the replies, in order. */
    ghost predicate Valid()
      reads this
    {
      outputOffset <= |output| && sent + output[outputOffset..] == replies
    }

    ghost function Pending(): string
      requires outputOffset <= |output|
      reads `output, `outputOffset
    {
      output[outputOffset..]
    }

    constructor ()
      ensures Valid() && input == "" && !closeAfterWrite && sent == "" && replies == "" && commands == []
    {
      input, output, outputOffset, closeAfterWrite := "", "", 0, false;
      sent, replies, commands := "", "", [];
    }

    method Answer(payload: string)
      requires Valid()
      modifies `output, `replies
      ensures Valid() && replies == old(replies) + payload
    {
      assert (output + payload)[outputOffset..] == output[outputOffset..] + payload;
      assert sent + (output[outputOffset..] + payload) == sent + output[outputOffset..] + payload;
      output := output + payload;
      replies := replies + payload;
    }

    /** writeToClient: sends what the system takes; compaction does not change what is pending. */
    method WriteToClient(responses: seq<Response>) returns (alive: bool)
      requires Valid()
      modifies `output, `outputOffset, `sent
      ensures Valid()
      ensures var t := Offer(|old(Pending())|, 0, responses);
        && sent == old(sent) + old(Pending())[..t.count] && Pending() == old(Pending())[t.count..]
        && (alive <==> !t.stop.Broken?)
    {
      hide Offer;
      ghost var pending := Pending();
      ghost var done: nat := 0;
      var i := 0;
      assert responses[0..] == responses;
      assert sent + pending[..0] == sent;
      while outputOffset < |output|
        invariant output == old(output) && i <= |responses|
        invariant done <= |pending| && outputOffset == old(outputOffset) + done
        invariant sent == old(sent) + pending[..done]
        invariant Offer(|pending|, 0, responses) == Offer(|pending|, done, responses[i..])
        decreases |responses| - i, |output| - outputOffset
      {
        OfferOnce(|pending|, done, responses, i);
        var response := Next(responses, i, |output| - outputOffset);
        i := Min(|responses|, i + 1);
        if response.Interrupted? {
          continue;
        }
        if response.WouldBlock? {
          break;
        }
        if response.count == 0 {
          SplitPending(old(sent), pending, done);
          return false;
        }
        var next := Min(|output|, outputOffset + response.count);
        MoveBytes(old(sent), pending, done, next - outputOffset);
        sent := sent + output[outputOffset..next];
        done := done + (next - outputOffset);
        outputOffset := next;
      }
      OfferNothing(|pending|, responses[i..]);
      SplitPending(old(sent), pending, done);
      assert output[outputOffset..] == pending[done..];
      if outputOffset == |output| {
        output := "";
        outputOffset := 0;
      } else if outputOffset > |output| / 2 {
        output := output[outputOffset..];
        outputOffset := 0;
      }
      return true;
    }

    lemma MoveBytes(sent: string, pending: string, from: nat, taken: nat)
      requires from + taken <= |pending|
      ensures sent + pending[..from] + pending[from..from + taken] == sent + pending[..from + taken]
    {
      assert pending[..from] + pending[from..from + taken] == pending[..from + taken];
    }

    lemma SplitPending(sent: string, pending: string, done: nat)
      requires done <= |pending|
      ensures sent + pending[..done] + pending[done..] == sent + pending
    {
      assert pending[..done] + pending[done..] == pending;
    }
  }

  // ---------------------------------------------------------------
  // Chunks
  // ---------------------------------------------------------------

  lemma DispatchedReceiving<S>(s: Session<S>, machine: Machine<S>, arguments: Command, consumed: nat, more: string)
    requires consumed <= |s.pending|
    ensures Dispatched(Receiving(s, more), machine, arguments, consumed) ==
            Receiving(Dispatched(s, machine, arguments, consumed), more)
  {
    assert (s.pending + more)[consumed..] == s.pending[consumed..] + more;
  }

  /** Commands that are complete already are cut off the same way when more bytes follow. */
  lemma {:induction false} BoundaryExtends<S>(s: Session<S>, more: string, machine: Machine<S>)
    ensures Boundary(Receiving(s, more), machine) == Boundary(Receiving(Boundary(s, machine), more), machine)
    decreases |s.pending|
  {
    hide Parse, Dispatched;
    var parsed := Parse(s.pending);
    if !s.closing && parsed.Complete? {
      CompleteStable(s.pending, more);
      DispatchedReceiving(s, machine, parsed.arguments, parsed.consumed, more);
      DispatchedShrinks(s, machine, parsed.arguments, parsed.consumed);
      BoundaryExtends(Dispatched(s, machine, parsed.arguments, parsed.consumed), more, machine);
    }
  }

  lemma DispatchedShrinks<S>(s: Session<S>, machine: Machine<S>, arguments: Command, consumed: nat)
    requires consumed <= |s.pending|
    ensures Dispatched(s, machine, arguments, consumed).pending == s.pending[consumed..]
  {
  }

  predicate HasNewline(b: string) {
    FindNewline(b, 0).Some?
  }

  /** A chunk ends inside an inline line that is already too long, and the next one ends the line. */
  predicate CutTooLate<S>(s: Session<S>, a: string, b: string, machine: Machine<S>) {
    var d := Boundary(Receiving(s, a), machine);
    !d.closing && Oversized(d.pending) && HasNewline(b)
  }

  /** Cutting a stream in two, exactly: it makes a difference only when an oversized line is cut too late. */
  lemma TwoChunks<S>(s: Session<S>, a: string, b: string, machine: Machine<S>)
    ensures Feed(Feed(s, a, machine), b, machine) == Feed(s, a + b, machine) <==> !CutTooLate(s, a, b, machine)
  {
    hide Parse, Boundary, Finish, Dispatched;
    var d := Boundary(Receiving(s, a), machine);
    BoundaryExtends(Receiving(s, a), b, machine);
    assert s.pending + (a + b) == s.pending + a + b;
    assert Receiving(Receiving(s, a), b) == Receiving(s, a + b);
    FinishedThenMore(d, b, machine);
  }

  /** After a first chunk has been processed up to `d`. */
  lemma FinishedThenMore<S>(d: Session<S>, b: string, machine: Machine<S>)
    requires d.closing || !Parse(d.pending).Complete?
    ensures Feed(Finish(d), b, machine) == Finish(Boundary(Receiving(d, b), machine))
            <==> !(!d.closing && Oversized(d.pending) && HasNewline(b))
  {
    hide Parse, Boundary, Dispatched, Oversized, HasNewline, Describe;
    var parsed := Parse(d.pending);
    if !d.closing && parsed.Error? {
      BoundaryStep(Receiving(Finish(d), b), machine);
      if Oversized(d.pending) {
        TooBig(d.pending, b);
        if HasNewline(b) {
          LateLine(d, b, machine);
        } else {
          BoundaryStep(Receiving(d, b), machine);
        }
      } else {
        ParseStable(d.pending, d.pending + b);
        BoundaryStep(Receiving(d, b), machine);
      }
    } else {
      if !d.closing {
        NotTooBig(d);
      }
      BoundaryStep(Receiving(d, b), machine);
    }
  }

  lemma NotTooBig<S>(d: Session<S>)
    requires !Parse(d.pending).Error?
    ensures !Oversized(d.pending)
  {
  }

  /** An oversized line, and what more bytes make of it. */
  lemma TooBig(pending: string, b: string)
    requires Oversized(pending)
    ensures Parse(pending) == Error(InlineTooBig)
    ensures HasNewline(b) ==> !Parse(pending + b).Incomplete? && Parse(pending + b) != Error(InlineTooBig)
    ensures !HasNewline(b) ==> Parse(pending + b) == Error(InlineTooBig)
  {
    hide Tokenizer.Tokenize;
    var whole := pending + b;
    if HasNewline(b) {
      var k := FindNewline(b, 0).value;
      assert whole[|pending| + k] == '\n';
    } else {
      forall i | 0 <= i < |whole| ensures whole[i] != '\n' {
        assert whole[i] == if i < |pending| then pending[i] else b[i - |pending|];
      }
    }
  }

  /** The end of an oversized line, if it arrives in time, is not an inline size error. */
  lemma LateLine<S>(d: Session<S>, b: string, machine: Machine<S>)
    requires !d.closing && Oversized(d.pending) && HasNewline(b)
    ensures Receiving(Finish(d), b) != Finish(Boundary(Receiving(d, b), machine))
  {
    hide Parse, Boundary, Oversized, HasNewline, Describe;
    TooBig(d.pending, b);
    var whole := Receiving(d, b);
    var parsed := Parse(whole.pending);
    BoundaryStep(whole, machine);
    if parsed.Complete? {
      DispatchedShrinks(whole, machine, parsed.arguments, parsed.consumed);
      assert |Boundary(whole, machine).pending| < |whole.pending|;
    }
  }

  // ---------------------------------------------------------------
  // Any number of chunks
  // ---------------------------------------------------------------

  function FeedAll<S>(s: Session<S>, chunks: seq<string>, machine: Machine<S>): Session<S>
    decreases |chunks|
  {
    if chunks == [] then s else FeedAll(Feed(s, chunks[0], machine), chunks[1..], machine)
  }

  function Flat(chunks: seq<string>): string {
    if chunks == [] then "" else chunks[0] + Flat(chunks[1..])
  }

  /** An inline line that is too long but does end. */
  predicate LongLine(b: string) {
    b != "" && b[0] != '*' && FindNewline(b, 0).Some? && FindNewline(b, 0).value > MAX_INLINE_SIZE
  }

  /** No inline line that the connection comes to is longer than the limit, its newline apart. */
  predicate LinesFit<S>(s: Session<S>, machine: Machine<S>)
    decreases |s.pending|
  {
    s.closing ||
    (var parsed := Parse(s.pending);
     !LongLine(s.pending) &&
     (parsed.Complete? ==> LinesFit(Dispatched(s, machine, parsed.arguments, parsed.consumed), machine)))
  }

  /** What lies ahead at a boundary was ahead from the start. */
  lemma {:induction false} LinesFitAhead<S>(s: Session<S>, more: string, machine: Machine<S>)
    requires LinesFit(Receiving(s, more), machine)
    ensures LinesFit(Receiving(Boundary(s, machine), more), machine)
    decreases |s.pending|
  {
    hide Parse, Dispatched, LongLine;
    var parsed := Parse(s.pending);
    if !s.closing && parsed.Complete? {
      CompleteStable(s.pending, more);
      DispatchedReceiving(s, machine, parsed.arguments, parsed.consumed, more);
      DispatchedShrinks(s, machine, parsed.arguments, parsed.consumed);
      LinesFitAhead(Dispatched(s, machine, parsed.arguments, parsed.consumed), more, machine);
    }
  }

  lemma LongLineAhead(pending: string, b: string)
    requires Oversized(pending) && HasNewline(b)
    ensures LongLine(pending + b)
  {
    var whole := pending + b;
    var k := FindNewline(b, 0).value;
    assert whole[|pending| + k] == '\n';
    assert forall i :: 0 <= i < |pending| ==> whole[i] == pending[i];
  }

  lemma FittingIsNotCutLate<S>(s: Session<S>, a: string, b: string, machine: Machine<S>)
    requires LinesFit(Receiving(s, a + b), machine)
    ensures !CutTooLate(s, a, b, machine)
    ensures LinesFit(Receiving(Feed(s, a, machine), b), machine)
  {
    hide Parse, Boundary, Oversized, HasNewline, LongLine;
    var d := Boundary(Receiving(s, a), machine);
    assert s.pending + (a + b) == s.pending + a + b;
    assert Receiving(Receiving(s, a), b) == Receiving(s, a + b);
    LinesFitAhead(Receiving(s, a), b, machine);
    if Oversized(d.pending) && HasNewline(b) {
      LongLineAhead(d.pending, b);
    }
  }

  /**
   * If no inline line is too long, then however the stream is cut into chunks, the same
   * commands are executed, the same replies are made, and the connection ends the same way.
   */
  lemma {:induction false} AnyChunks<S>(s: Session<S>, chunks: seq<string>, machine: Machine<S>)
    requires chunks != [] && LinesFit(Receiving(s, Flat(chunks)), machine)
    ensures FeedAll(s, chunks, machine) == Feed(s, Flat(chunks), machine)
    decreases |chunks|
  {
    hide Feed, LinesFit, CutTooLate, Receiving;
    var rest := chunks[1..];
    if rest == [] {
      assert chunks[0] + "" == chunks[0];
    } else {
      FittingIsNotCutLate(s, chunks[0], Flat(rest), machine);
      TwoChunks(s, chunks[0], Flat(rest), machine);
      AnyChunks(Feed(s, chunks[0], machine), rest, machine);
    }
  }

  /** Where a stream with a line that is too long can be cut to make a difference. */
  lemma {:induction false} WorstCut<S>(s: Session<S>, machine: Machine<S>) returns (cut: nat)
    requires !LinesFit(s, machine)
    ensures cut < |s.pending|
    ensures CutTooLate(s.(pending := ""), s.pending[..cut], s.pending[cut..], machine)
    decreases |s.pending|
  {
    hide Parse, Oversized, HasNewline, LongLine;
    if LongLine(s.pending) {
      cut := LongLineCut(s.pending);
      var d := s.(pending := s.pending[..cut]);
      assert Receiving(s.(pending := ""), s.pending[..cut]) == d;
    } else {
      var parsed := Parse(s.pending);
      var next := Dispatched(s, machine, parsed.arguments, parsed.consumed);
      DispatchedShrinks(s, machine, parsed.arguments, parsed.consumed);
      var c := WorstCut(next, machine);
      cut := parsed.consumed + c;
      WholeCommandSuffices(s.pending, cut);
      var start := s.(pending := s.pending[..cut]);
      assert Receiving(s.(pending := ""), s.pending[..cut]) == start;
      assert s.pending[..cut][parsed.consumed..] == next.pending[..c];
      assert s.pending[cut..] == next.pending[c..];
      assert Receiving(next.(pending := ""), next.pending[..c]) ==
             Dispatched(start, machine, parsed.arguments, parsed.consumed);
      BoundaryStep(start, machine);
    }
  }

  lemma LongLineCut(pending: string) returns (cut: nat)
    requires LongLine(pending)
    ensures cut < |pending| && Oversized(pending[..cut]) && HasNewline(pending[cut..])
    ensures Parse(pending[..cut]) == Error(InlineTooBig)
  {
    cut := FindNewline(pending, 0).value;
    var line := pending[..cut];
    assert forall i :: 0 <= i < |line| ==> line[i] == pending[i];
    assert pending[cut..][0] == '\n';
  }

  /** Chunking never matters, exactly when no inline line is too long. */
  lemma ChunkingIndependence<S>(s: Session<S>, machine: Machine<S>)
    ensures LinesFit(s, machine) <==>
            forall chunks: seq<string> :: chunks != [] && Flat(chunks) == s.pending ==>
              FeedAll(s.(pending := ""), chunks, machine) == Feed(s.(pending := ""), s.pending, machine)
  {
    hide Feed, LinesFit, CutTooLate, FeedAll, Flat;
    var start := s.(pending := "");
    if LinesFit(s, machine) {
      forall chunks: seq<string> | chunks != [] && Flat(chunks) == s.pending
        ensures FeedAll(start, chunks, machine) == Feed(start, s.pending, machine)
      {
        assert Receiving(start, Flat(chunks)) == s by { assert "" + s.pending == s.pending; }
        AnyChunks(start, chunks, machine);
      }
    } else {
      var cut := WorstCut(s, machine);
      var a, b := s.pending[..cut], s.pending[cut..];
      TwoChunks(start, a, b, machine);
      assert a + b == s.pending;
      TwoFed(start, a, b, machine);
      assert [a, b] != [] && Flat([a, b]) == s.pending;
    }
  }

  lemma TwoFed<S>(s: Session<S>, a: string, b: string, machine: Machine<S>)
    ensures FeedAll(s, [a, b], machine) == Feed(Feed(s, a, machine), b, machine) && Flat([a, b]) == a + b
  {
    hide Feed;
    assert [a, b][1..] == [b];
    assert [b][1..] == [];
    assert Flat([b]) == b + "" == b;
    assert FeedAll(Feed(s, a, machine), [b], machine) == Feed(Feed(s, a, machine), b, machine);
  }

  /** A line of letters that is one byte too long, without its newline. */
  function Letters(n: nat): (s: string)
    ensures |s| == n && forall i :: 0 <= i < n ==> s[i] == 'a'
  {
    seq(n, _ => 'a')
  }

  /**
   * The condition is needed: a line of 65537 letters is executed when it arrives in one
   * piece, and closes the connection with an error when its newline arrives separately.
   */
  lemma LongLineMatters<S>(state: S, machine: Machine<S>)
    ensures var line, start := Letters(MAX_INLINE_SIZE + 1), Session(state, "", false, None);
      && !LinesFit(start.(pending := line + "\n"), machine)
      && FeedAll(start, [line, "\n"], machine).error == Some(InlineTooBig)
      && FeedAll(start, [line, "\n"], machine) != Feed(start, line + "\n", machine)
  {
    hide Parse, Feed, FeedAll, Tokenizer.Tokenize;
    var line, start := Letters(MAX_INLINE_SIZE + 1), Session(state, "", false, None);
    assert "" + line == line;
    LettersAreTooBig(line);
    var d := Receiving(start, line);
    assert d.pending == line;
    BoundaryStep(d, machine);
    assert CutTooLate(start, line, "\n", machine);
    TwoChunks(start, line, "\n", machine);
    TwoFed(start, line, "\n", machine);
    ClosedStays(start, line, "\n", machine);
    LongLineAhead(line, "\n");
  }

  lemma LettersAreTooBig(line: string)
    requires line == Letters(MAX_INLINE_SIZE + 1)
    ensures Oversized(line) && HasNewline("\n") && Parse(line) == Error(InlineTooBig)
  {
    assert line[0] == 'a';
  }

  /** Once an oversized line has closed the connection, more bytes change nothing but what is pending. */
  lemma ClosedStays<S>(s: Session<S>, a: string, b: string, machine: Machine<S>)
    requires !s.closing && Parse(Receiving(s, a).pending) == Error(InlineTooBig)
    ensures Feed(Feed(s, a, machine), b, machine).error == Some(InlineTooBig)
  {
    hide Parse;
    var d := Receiving(s, a);
    BoundaryStep(d, machine);
    BoundaryStep(Receiving(Finish(d), b), machine);
  }
}
