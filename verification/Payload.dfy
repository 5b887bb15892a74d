/** The bytes of each command's reply: which text goes with which error, and when a client can find its end. */
module Payload {
  import opened Text
  import opened Values
  import opened Keyspace
  import opened Resp
  import opened CommandSpec
  import opened Replies
  import opened Processor
  import opened Recovery

  // ---------------------------------------------------------------
  // Replies as bytes
  // ---------------------------------------------------------------

  /** The line of an error reply, without its leading minus sign. */
  function ErrorLine(problem: Problem, arguments: Command): string {
    var name := if arguments == [] then "" else Lower(arguments[0]);
    match problem
    case EmptyCommand => "ERR empty command"
    case UnknownCommand(given) => "ERR unknown command '" + given + "'"
    case WrongArguments => "ERR wrong number of arguments for '" + name + "' command"
    case BadInteger => "ERR value is not an integer or out of range"
    case BadSyntax => "ERR syntax error"
    case BadExpire => "ERR invalid expire time in '" + name + "' command"
    case DecrementOverflow => "ERR decrement would overflow"
    case BadIndex => "ERR DB index is out of range"
    case BadSubcommand =>
      "ERR unknown subcommand or wrong number of " + "arguments for '" + name + "' command"
    case UnsupportedParameter(given) => "ERR Unsupported CONFIG parameter: " + given
    case BadPolicy => "ERR invalid maxmemory-policy; " + "use noeviction or allkeys-lru"
    case BadMemorySize => "ERR argument must be a memory value"
    case Misconfigured => "MISCONF Errors writing to the AOF file. " + "Write commands are disabled."
    case OutOfMemory => "OOM command not allowed when " + "used memory > 'maxmemory'."
    case Store(WrongType) => "WRONGTYPE Operation against a key " + "holding the wrong kind of value"
    case Store(NotInteger) => "ERR value is not an integer " + "or out of range"
    case Store(IncrementOverflow) => "ERR increment or decrement " + "would overflow"
  }

  function KindName(v: Option<Value>): string {
    match v
    case None => "none"
    case Some(Str(_)) => "string"
    case Some(List(_)) => "list"
    case Some(Hash(_)) => "hash"
    case Some(Set(_)) => "set"
  }

  function OptionalBulk(value: Option<string>): Wire {
    match value
    case None => Nil
    case Some(text) => Wire.Bulk(text)
  }

  /** A command's reply as it goes out. */
  function ToWire(reply: Reply, arguments: Command): Wire
    requires !reply.Unspecified?
  {
    match reply
    case Ok => Simple("OK")
    case Pong => Simple("PONG")
    case Kind(v) => Simple(KindName(v))
    case Failure(problem) => Failed(ErrorLine(problem, arguments))
    case Integer(n) => Wire.Integer(n)
    case BulkReply(text) => Wire.Bulk(text)
    case Null => Nil
    case Strings(items) => Array(seq(|items|, i requires 0 <= i < |items| => Wire.Bulk(items[i])))
    case Values(found) => Array(seq(|found|, i requires 0 <= i < |found| => OptionalBulk(found[i])))
  }

  function ReplyBytes(reply: Reply, arguments: Command): (bytes: string)
    requires !reply.Unspecified?
    ensures bytes != ""
  {
    Encode(ToWire(reply, arguments))
  }

  /** The replay callback tells errors by the first byte, which is right. */
  lemma ErrorByFirstByte(reply: Reply, arguments: Command)
    requires !reply.Unspecified?
    ensures ReplyBytes(reply, arguments)[0] == '-' <==> reply.Failure?
  {
    hide ErrorLine, KindName, IntToText;
  }

  /** Numbers and sizes fit a `long long`, as they do on any machine. */
  predicate SizesFit(reply: Reply) {
    match reply
    case Integer(n) => IsInt64(n)
    case BulkReply(text) => IsInt64(|text|)
    case Strings(items) => IsInt64(|items|) && forall i :: 0 <= i < |items| ==> IsInt64(|items[i]|)
    case Values(found) =>
      IsInt64(|found|) && forall i :: 0 <= i < |found| ==> found[i].Some? ==> IsInt64(|found[i].value|)
    case _ => true
  }

  // ---------------------------------------------------------------
  // Which texts have a line break
  // ---------------------------------------------------------------

  predicate Plainly(s: string) {
    forall i :: 0 <= i < |s| ==> s[i] != '\r'
  }

  lemma PlainlyIsOneLine(s: string)
    requires Plainly(s)
    ensures OneLine(s)
  {
    forall i | 0 <= i < |s| ensures !CrlfAt(s + CRLF, i) {
      assert (s + CRLF)[i] == s[i];
    }
  }

  lemma PlainJoin(a: string, b: string)
    requires Plainly(a) && Plainly(b)
    ensures Plainly(a + b)
  {
  }

  predicate OnStrings(h: Handler) {
    || h.SetString? || h.Get? || h.MSet? || h.MGet? || h.Incr? || h.Decr? || h.IncrBy? || h.DecrBy?
    || h.Append? || h.StrLen? || h.LPush? || h.RPush? || h.LPop? || h.RPop? || h.LRange? || h.LLen? || h.LIndex?
  }

  predicate OnServer(h: Handler) {
    || h.Ping? || h.Echo? || h.Select? || h.CommandInfo? || h.DbSize? || h.FlushAll? || h.Info? || h.Config?
    || h.Memory? || h.Del? || h.Exists? || h.TypeOf? || h.Keys?
  }

  lemma StringNamesArePlain(name: string, i: nat)
    requires i < |name| && HandlerOf(name).Some? && OnStrings(HandlerOf(name).value)
    ensures name[i] != '\r'
  {
  }

  lemma ServerNamesArePlain(name: string, i: nat)
    requires i < |name| && HandlerOf(name).Some? && OnServer(HandlerOf(name).value)
    ensures name[i] != '\r'
  {
  }

  lemma OtherNamesArePlain(name: string, i: nat)
    requires i < |name| && HandlerOf(name).Some?
    requires !OnStrings(HandlerOf(name).value) && !OnServer(HandlerOf(name).value)
    ensures name[i] != '\r'
  {
  }

  /** No command of the table has a carriage return in its name. */
  lemma TableNamesArePlain(name: string)
    requires HandlerOf(Upper(name)).Some?
    ensures Plainly(Lower(name))
  {
    hide HandlerOf;
    var h := HandlerOf(Upper(name)).value;
    forall i | 0 <= i < |name| ensures Lower(name)[i] != '\r' {
      if OnStrings(h) {
        StringNamesArePlain(Upper(name), i);
      } else if OnServer(h) {
        ServerNamesArePlain(Upper(name), i);
      } else {
        OtherNamesArePlain(Upper(name), i);
      }
    }
  }

  /** Errors that repeat the command's name. */
  predicate NamesCommand(problem: Problem) {
    problem.WrongArguments? || problem.BadExpire? || problem.BadSubcommand?
  }

  /** Errors that repeat an argument as it came. */
  predicate Repeats(problem: Problem) {
    problem.UnknownCommand? || problem.UnsupportedParameter?
  }

  lemma NamingLineIsPlain(problem: Problem, arguments: Command)
    requires NamesCommand(problem) && (arguments != [] ==> Plainly(Lower(arguments[0])))
    ensures Plainly(ErrorLine(problem, arguments))
  {
    hide Lower;
    var name := if arguments == [] then "" else Lower(arguments[0]);
    match problem
    case WrongArguments => PlainJoin("ERR wrong number of arguments for '", name);
    case BadExpire => PlainJoin("ERR invalid expire time in '", name);
    case BadSubcommand => SubcommandLineIsPlain(arguments);
  }

  lemma SubcommandLineIsPlain(arguments: Command)
    requires arguments != [] ==> Plainly(Lower(arguments[0]))
    ensures Plainly(ErrorLine(BadSubcommand, arguments))
  {
    hide Lower;
    PlainJoin("ERR unknown subcommand or wrong number of ", "arguments for '");
  }

  lemma ArgumentLineIsPlain(problem: Problem, arguments: Command)
    requires problem in {BadInteger, BadSyntax, BadMemorySize}
    ensures Plainly(ErrorLine(problem, arguments))
  {
    hide Lower;
  }

  lemma ShortLineIsPlain(problem: Problem, arguments: Command)
    requires problem in {EmptyCommand, BadIndex, DecrementOverflow}
    ensures Plainly(ErrorLine(problem, arguments))
  {
    hide Lower;
  }

  lemma StoreLineIsPlain(problem: Problem, arguments: Command)
    requires problem.Store?
    ensures Plainly(ErrorLine(problem, arguments))
  {
    hide Lower;
    match problem.error
    case WrongType => PlainJoin("WRONGTYPE Operation against a key ", "holding the wrong kind of value");
    case NotInteger => PlainJoin("ERR value is not an integer ", "or out of range");
    case IncrementOverflow => PlainJoin("ERR increment or decrement ", "would overflow");
  }

  lemma StateLineIsPlain(problem: Problem, arguments: Command)
    requires problem in {BadPolicy, Misconfigured, OutOfMemory}
    ensures Plainly(ErrorLine(problem, arguments))
  {
    hide Lower;
    match problem
    case BadPolicy => PlainJoin("ERR invalid maxmemory-policy; ", "use noeviction or allkeys-lru");
    case Misconfigured => PlainJoin("MISCONF Errors writing to the AOF file. ", "Write commands are disabled.");
    case OutOfMemory => PlainJoin("OOM command not allowed when ", "used memory > 'maxmemory'.");
  }

  /** A name is repeated only after it was found in the table. */
  lemma ErrorLineIsPlain(problem: Problem, arguments: Command)
    requires !Repeats(problem)
    requires NamesCommand(problem) && arguments != [] ==> HandlerOf(Upper(arguments[0])).Some?
    ensures Plainly(ErrorLine(problem, arguments))
  {
    hide HandlerOf, ErrorLine, Plainly, Upper, Lower;
    if NamesCommand(problem) {
      if arguments != [] {
        TableNamesArePlain(arguments[0]);
      }
      NamingLineIsPlain(problem, arguments);
    } else if problem.Store? {
      StoreLineIsPlain(problem, arguments);
    } else if problem in {BadPolicy, Misconfigured, OutOfMemory} {
      StateLineIsPlain(problem, arguments);
    } else if problem in {EmptyCommand, BadIndex, DecrementOverflow} {
      ShortLineIsPlain(problem, arguments);
    } else {
      ArgumentLineIsPlain(problem, arguments);
    }
  }

  // ---------------------------------------------------------------
  // Which replies can be framed
  // ---------------------------------------------------------------

  predicate HasCrlf(s: string) {
    FindCrlf(s, 0).Some?
  }

  /** A line with an argument in it, between texts of its own, is one line unless the argument has a CRLF. */
  lemma EchoedLine(before: string, given: string, after: string)
    requires Plainly(before) && Plainly(after) && (after != "" ==> after[0] != '\n')
    ensures OneLine(before + given + after) <==> !HasCrlf(given)
  {
    var line := before + given + after;
    var body := line + CRLF;
    assert forall i :: 0 <= i < |before| ==> body[i] == before[i];
    assert forall i :: 0 <= i < |given| ==> body[|before| + i] == given[i];
    assert forall i :: 0 <= i < |after| ==> body[|before| + |given| + i] == after[i];
    if HasCrlf(given) {
      assert CrlfAt(body, |before| + FindCrlf(given, 0).value);
    } else {
      forall i | 0 <= i < |line| ensures !CrlfAt(body, i) {
        if |before| <= i < |before| + |given| {
          assert !CrlfAt(given, i - |before|);
          assert i + 1 == |before| + |given| ==> body[i + 1] != '\n';
        }
      }
    }
  }

  lemma RepeatingLine(problem: Problem, arguments: Command)
    requires Repeats(problem)
    ensures OneLine(ErrorLine(problem, arguments)) <==> !HasCrlf(problem.name)
  {
    match problem
    case UnknownCommand(name) => EchoedLine("ERR unknown command '", name, "'");
    case UnsupportedParameter(name) =>
      var before := "ERR Unsupported CONFIG parameter: ";
      EchoedLine(before, name, "");
      assert before + name + "" == before + name;
  }

  /** A command whose error repeats a CRLF of its own: an unknown name, or a parameter that CONFIG SET does not know. */
  predicate EchoesCrlf(arguments: Command) {
    match Dispatch(arguments)
    case Reject(UnknownCommand(name)) => HasCrlf(name)
    case Read(h) =>
      h.Config? && |arguments| > 2 && SettingOf(arguments) == Wrong(UnsupportedParameter(arguments[2])) &&
      HasCrlf(arguments[2])
    case _ => false
  }

  // ---------------------------------------------------------------
  // Where each error comes from
  // ---------------------------------------------------------------

  lemma LookRepeats(h: Handler, v: Option<Value>, name: string)
    requires OnlyLooks(h)
    ensures var reply := LookReply(h, v, name); reply.Failure? ==> !Repeats(reply.problem)
  {
  }

  lemma KeyRepeats(ks: Keyspace, h: Handler, key: string, first: string, second: string, now: int)
    requires ReadsKey(h)
    ensures var reply := KeyReply(ks, h, key, first, second, now); reply.Failure? ==> !Repeats(reply.problem)
  {
    hide ParseInteger, Slice, ElementAt, HashListing, TtlMs, TtlSeconds;
  }

  lemma ServerRepeats(ks: Keyspace, h: Handler, arguments: Command)
    requires |arguments| >= 1 && !h.Config?
    ensures var reply := ServerReply(ks, h, arguments); reply.Failure? ==> !Repeats(reply.problem)
  {
    hide Upper, PresentCount, GetAll, EntryCost;
  }

  lemma QueryRepeats(ks: Keyspace, h: Handler, arguments: Command, now: int)
    requires |arguments| >= 1 && !h.Config?
    ensures var reply := Query(ks, h, arguments, now); reply.Failure? ==> !Repeats(reply.problem)
  {
    hide LookReply, KeyReply, ServerReply;
    var first, second := Argument(arguments, 1), Argument(arguments, 2);
    if OnlyLooks(h) {
      LookRepeats(h, ValueAt(ks, first), second);
    } else if ReadsKey(h) {
      KeyRepeats(ks, h, first, second, Argument(arguments, 3), now);
    } else {
      ServerRepeats(ks, h, arguments);
    }
  }

  lemma {:induction false} OptionsRepeatNothing(arguments: Command, i: nat, sofar: SetOptions, now: int)
    requires i <= |arguments|
    ensures var r := ReadSetOptions(arguments, i, sofar, now); r.BadOptions? ==> !Repeats(r.problem)
    decreases |arguments| - i
  {
    hide ParseInteger, Upper;
    if i < |arguments| {
      OptionsRepeatNothing(arguments, i + 1, sofar.(onlyIfMissing := true), now);
      OptionsRepeatNothing(arguments, i + 1, sofar.(onlyIfPresent := true), now);
      if i + 1 < |arguments| {
        var plan := SetExpiry(arguments[i + 1], if Upper(arguments[i]) == "EX" then 1000 else 1, now);
        if plan.Do? {
          OptionsRepeatNothing(arguments, i + 2, sofar.(expiry := Some(plan.op.deadline)), now);
        }
      }
    }
  }

  lemma PerformRepeats(ks: Keyspace, op: Op, arguments: Command, now: int)
    ensures var reply := Perform(ks, op, arguments, now).reply; reply.Failure? ==> !Repeats(reply.problem)
  {
    hide Modify, DeletedCount, ToSet, StoreAll;
  }

  lemma PlanRepeats(h: Handler, arguments: Command, now: int)
    requires IsWrite(h) && ArityOk(h, |arguments|)
    ensures var plan := PlanWrite(h, arguments, now); plan.Refuse? ==> !Repeats(plan.problem)
  {
    hide ParseInteger, PairsOf, DeadlineOf, ReadSetOptions, ModifierOf;
    if h.SetString? {
      OptionsRepeatNothing(arguments, 3, NoOptions, now);
    }
  }

  lemma WriteRepeats(ks: Keyspace, h: Handler, arguments: Command, now: int)
    requires IsWrite(h) && ArityOk(h, |arguments|)
    ensures var reply := RunPlan(ks, PlanWrite(h, arguments, now), arguments, now).reply;
            reply.Failure? ==> !Repeats(reply.problem)
  {
    hide PlanWrite, Perform;
    PlanRepeats(h, arguments, now);
    match PlanWrite(h, arguments, now)
    case Refuse(_) =>
    case Do(op) => PerformRepeats(ks, op, arguments, now);
  }

  /** Only the dispatcher and CONFIG SET repeat an argument, and only as `EchoesCrlf` says. */
  lemma RepliesThatRepeat(ks: Keyspace, arguments: Command, now: int)
    ensures var reply := Exec(ks, arguments, now).reply;
            EchoesCrlf(arguments) <==> reply.Failure? && Repeats(reply.problem) && HasCrlf(reply.problem.name)
    ensures var reply := Exec(ks, arguments, now).reply;
            reply.Failure? && NamesCommand(reply.problem) && arguments != [] ==>
              HandlerOf(Upper(arguments[0])).Some?
  {
    hide HandlerOf, Upper, Query, RunPlan, PlanWrite, Exec, HasCrlf, ParseMemorySize;
    ExecCases(ks, arguments, now);
    match Dispatch(arguments)
    case Read(h) =>
      if !h.Config? {
        QueryRepeats(ks, h, arguments, now);
      }
    case Write(h) => WriteRepeats(ks, h, arguments, now);
    case _ =>
  }

  // ---------------------------------------------------------------
  // Framing
  // ---------------------------------------------------------------

  lemma KindIsOneLine(v: Option<Value>)
    ensures OneLine(KindName(v)) && OneLine("OK") && OneLine("PONG")
  {
    assert Plainly(KindName(v)) && Plainly("OK") && Plainly("PONG");
    PlainlyIsOneLine(KindName(v));
    PlainlyIsOneLine("OK");
    PlainlyIsOneLine("PONG");
  }

  lemma FailureIsOneLine(problem: Problem, arguments: Command)
    requires NamesCommand(problem) && arguments != [] ==> HandlerOf(Upper(arguments[0])).Some?
    ensures OneLine(ErrorLine(problem, arguments)) <==> !(Repeats(problem) && HasCrlf(problem.name))
  {
    hide HandlerOf, ErrorLine, OneLine, HasCrlf, Upper, Plainly;
    if Repeats(problem) {
      RepeatingLine(problem, arguments);
    } else {
      ErrorLineIsPlain(problem, arguments);
      PlainlyIsOneLine(ErrorLine(problem, arguments));
    }
  }

  lemma FramedIffSendable(reply: Reply, arguments: Command)
    requires !reply.Unspecified? && SizesFit(reply)
    ensures var bytes := ReplyBytes(reply, arguments);
            Frame(bytes, 0) == Whole(|bytes|) <==> reply.Failure? ==> OneLine(ErrorLine(reply.problem, arguments))
  {
    hide ErrorLine, KindName, Frame, OneLine;
    KindIsOneLine(if reply.Kind? then reply.value else None);
    var wire := ToWire(reply, arguments);
    if reply.Failure? {
      LineFraming('-', ErrorLine(reply.problem, arguments));
    } else {
      FrameExact(Encode(wire), 0, wire);
    }
  }

  /**
   * A client that reads replies off the wire finds the end of a command's reply if and only
   * if the command is not one whose error repeats a CRLF of its own. `s` is the step that
   * the command came to, and `reason` why it was refused if it was.
   */
  lemma ReplyIsFramed(ks: Keyspace, s: Step, reply: Reply, reason: Problem)
    requires Answers(ks, s, reply, reason) && !reply.Unspecified? && SizesFit(reply)
    requires s.ran || (Dispatch(s.arguments).Write? && reason in {Misconfigured, OutOfMemory})
    ensures var bytes := ReplyBytes(reply, s.arguments);
            Frame(bytes, 0) == Whole(|bytes|) <==> !EchoesCrlf(s.arguments)
  {
    hide Exec, ErrorLine, OneLine, Frame, HasCrlf, HandlerOf, Upper, Dispatch, SettingOf, ReplyBytes;
    hide AfterEviction;
    FramedIffSendable(reply, s.arguments);
    RepliesThatRepeat(AfterEviction(ks, s), s.arguments, s.time);
    if reply.Failure? {
      FailureIsOneLine(reply.problem, s.arguments);
    }
  }

  /** An unknown name with a CRLF in it ends its own error reply there. */
  lemma BrokenReply(name: string)
    requires HasCrlf(name)
    ensures var bytes := ReplyBytes(Failure(UnknownCommand(name)), [name]);
            Frame(bytes, 0) == Whole(24 + FindCrlf(name, 0).value) && |bytes| == 25 + |name|
  {
    hide Frame;
    var text := "ERR unknown command '";
    assert |text| == 21 && Plainly(text);
    var before := "-" + text;
    UnknownBytes(name, text);
    BreaksAt(before, name, "'" + CRLF);
    LineFrame(before + (name + ("'" + CRLF)));
  }

  lemma UnknownBytes(name: string, text: string)
    requires text == "ERR unknown command '"
    ensures ReplyBytes(Failure(UnknownCommand(name)), [name]) == "-" + text + (name + ("'" + CRLF))
  {
    assert "-" + (text + name + "'" + CRLF) == "-" + text + (name + ("'" + CRLF));
  }

  /** A line reply is framed at the first CRLF. */
  lemma LineFrame(bytes: string)
    requires bytes != "" && bytes[0] == '-' && FindCrlf(bytes, 0).Some?
    ensures Frame(bytes, 0) == Whole(FindCrlf(bytes, 0).value + 2)
  {
  }

  lemma BreaksAt(before: string, name: string, after: string)
    requires HasCrlf(name) && Plainly(before)
    ensures FindCrlf(before + (name + after), 0) == Some(|before| + FindCrlf(name, 0).value)
  {
    var k := FindCrlf(name, 0).value;
    var bytes := before + (name + after);
    assert forall i :: 0 <= i < |before| ==> bytes[i] == before[i];
    assert forall i :: 0 <= i < |name| ==> bytes[|before| + i] == name[i];
    forall i | 0 <= i < |before| + k ensures !CrlfAt(bytes, i) {
      if i >= |before| {
        assert !CrlfAt(name, i - |before|);
      }
    }
    FoundAt(bytes, 0, |before| + k);
  }

  /** A command named "A\r\nB" is answered with 29 bytes, of which a client takes the first 25 for the reply. */
  lemma BrokenName(ks: Keyspace, now: int)
    ensures var name := "A\r\nB";
            var reply := Exec(ks, [name], now).reply;
            && EchoesCrlf([name]) && reply == Failure(UnknownCommand(name))
            && |ReplyBytes(reply, [name])| == 29 && Frame(ReplyBytes(reply, [name]), 0) == Whole(25)
  {
    hide Exec, Frame, ReplyBytes;
    var name := "A\r\nB";
    assert Upper(name) == name;
    UnknownName(ks, [name], now);
    assert CrlfAt(name, 1);
    FoundAt(name, 0, 1);
    BrokenReply(name);
  }

  lemma UnknownName(ks: Keyspace, arguments: Command, now: int)
    requires arguments != [] && Upper(arguments[0]) != "QUIT" && HandlerOf(Upper(arguments[0])).None?
    ensures Dispatch(arguments) == Reject(UnknownCommand(arguments[0]))
    ensures Exec(ks, arguments, now).reply == Failure(UnknownCommand(arguments[0]))
  {
    hide HandlerOf, Upper;
  }
}
