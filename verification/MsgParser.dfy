/** The command parser: lines up to END, and for TCP_SET_CFG a payload of stated length. */
module MsgParser {
  import opened Chars

  datatype MsgCmd = TcpSetTime | TcpPlay | TcpStop | TcpSetCfg | TcpGetCfg | TcpSetVolume | TcpReset | TcpStatus | TcpCmdNum

  /** `OutsideMessage` stands for a stated length that takes the parser past the end of the message;
      what the program then reads is not part of this model. */
  datatype ParserStatus = Ok | TooManyNodes | WrongMessage | OutsideMessage

  const MSG_MAX_NODES: nat := 5

  const END: string := "END"

  const SET_CFG: string := "TCP_SET_CFG"

  const COMMANDS: seq<string> :=
    ["TCP_SET_TIME", "TCP_PLAY", "TCP_STOP", SET_CFG, "TCP_GET_CFG", "TCP_SET_VOLUME", "TCP_RESET", "TCP_STATUS"]

  const COMMAND_NODES: seq<nat> := [3, 4, 2, 4, 2, 3, 2, 2]

  const CMDS: seq<MsgCmd> := [TcpSetTime, TcpPlay, TcpStop, TcpSetCfg, TcpGetCfg, TcpSetVolume, TcpReset, TcpStatus]

  // ---------- C strings and numbers ----------

  /** A string as strcmp and atoi see it: up to the first NUL. */
  function CStr(s: string): (r: string) {
    if s == [] || s[0] == '\0' then [] else [s[0]] + CStr(s[1..])
  }

  predicate IsCSpace(c: char) {
    c == ' ' || '\t' <= c <= '\r'
  }

  /** The leading digits of `s`, after the digits worth `acc`. */
  function Digits(s: string, acc: nat): nat {
    if s == [] || !IsDigit(s[0], 10) then acc else Digits(s[1..], 10 * acc + (s[0] - '0') as nat)
  }

  /** atoi, on numbers that fit its result. */
  function Atoi(s: string): int {
    if s == [] then 0
    else if IsCSpace(s[0]) then Atoi(s[1..])
    else if s[0] == '-' then 0 - Digits(s[1..], 0)
    else if s[0] == '+' then Digits(s[1..], 0)
    else Digits(s, 0)
  }

  lemma {:induction false} DigitsOf(n: nat, rest: string)
    requires rest == [] || !IsDigit(rest[0], 10)
    ensures Digits(Decimal(n) + rest, 0) == n
  {
    DigitsRun(n, rest);
  }

  /** Reading the digits of `n` before other digits leaves `n` as what they are worth. */
  lemma {:induction false} DigitsRun(n: nat, rest: string)
    ensures Digits(Decimal(n) + rest, 0) == Digits(rest, n)
  {
    if n < 10 {
      assert (Decimal(n) + rest)[1..] == rest;
    } else {
      var last := [('0' as int + n % 10) as char];
      assert Decimal(n) + rest == Decimal(n / 10) + (last + rest);
      DigitsRun(n / 10, last + rest);
      assert (last + rest)[1..] == rest;
    }
  }

  lemma {:induction false} CStrWhole(s: string)
    requires '\0' !in s
    ensures CStr(s) == s
  {
    if s != [] {
      CStrWhole(s[1..]);
      assert s == [s[0]] + s[1..];
    }
  }

  /** What the parser makes of a decimal length. */
  lemma AtoiDecimal(n: nat)
    ensures Atoi(CStr(Decimal(n))) == n
  {
    var s := Decimal(n);
    assert '\0' !in s;
    CStrWhole(s);
    DigitsOf(n, []);
    assert s + [] == s;
    assert IsDigit(s[0], 10);
  }

  /** White space to the C library: blank, tab, line feed, vertical tab, form feed, carriage return. */
  predicate CBlank(w: string) {
    forall k :: 0 <= k < |w| ==>
      w[k] == ' ' || w[k] == '\t' || w[k] == '\n' || w[k] == 11 as char || w[k] == 12 as char || w[k] == '\r'
  }

  lemma {:induction false} AtoiSkips(w: string, t: string)
    requires CBlank(w)
    ensures Atoi(w + t) == Atoi(t)
  {
    if w == [] {
      assert w + t == t;
    } else {
      assert (w + t)[1..] == w[1..] + t;
      AtoiSkips(w[1..], t);
    }
  }

  /** atoi: white space, an optional sign, and digits up to the first character that is none. */
  lemma AtoiReads(w: string, n: nat, rest: string)
    requires CBlank(w) && (rest == [] || rest[0] !in DECIMAL)
    ensures Atoi(w + (Decimal(n) + rest)) == n
    ensures Atoi(w + (['+'] + (Decimal(n) + rest))) == n
    ensures Atoi(w + (['-'] + (Decimal(n) + rest))) == 0 - n
  {
    var t := Decimal(n) + rest;
    if rest != [] { DigitsAre(rest[0]); }
    DigitsOf(n, rest);
    assert t[0] == Decimal(n)[0] && IsDigit(Decimal(n)[0], 10);
    AtoiSkips(w, t);
    AtoiSkips(w, ['+'] + t);
    AtoiSkips(w, ['-'] + t);
    assert (['+'] + t)[1..] == t && (['-'] + t)[1..] == t;
  }

  // ---------- the specification ----------

  datatype Scan = Done(nodes: seq<string>) | TooMany(nodes: seq<string>) | Outside(nodes: seq<string>)

  function ToLf(s: string): (r: string)
    ensures |r| == |s|
  {
    seq(|s|, i requires 0 <= i < |s| => if s[i] == '\r' then '\n' else s[i])
  }

  /** The next thing to read is the payload of TCP_SET_CFG. */
  predicate AtPayload(nodes: seq<string>) {
    |nodes| == 2 && CStr(nodes[0]) == SET_CFG
  }

  /** The length stated for the payload stays within the message. */
  predicate Within(msg: string, i: nat, nodes: seq<string>)
    requires AtPayload(nodes)
  {
    var size := Atoi(CStr(nodes[1]));
    0 <= size && i + size < |msg|
  }

  /** Reading from position `i` with `node` begun. */
  function Read(msg: string, i: nat, nodes: seq<string>, node: string): Scan
    decreases |msg| - i
  {
    if i >= |msg| then Done(nodes)
    else if |nodes| >= MSG_MAX_NODES then TooMany(nodes)
    else if AtPayload(nodes) then
      if Within(msg, i, nodes) then
        var j := i + Atoi(CStr(nodes[1]));
        var nodes1 := nodes + [ToLf(msg[i..j])];
        if msg[j] == '\n' then Read(msg, j + 1, nodes1 + [""], "") else Read(msg, j + 1, nodes1, [msg[j]])
      else Outside(nodes)
    else if msg[i] == '\n' then Read(msg, i + 1, nodes + [node], "")
    else Read(msg, i + 1, nodes, node + [msg[i]])
  }

  /** The command of a list of nodes, if END closes it and the number of nodes is right. */
  function Command(nodes: seq<string>): MsgCmd {
    if nodes == [] || CStr(nodes[|nodes| - 1]) != END then TcpCmdNum
    else CommandFrom(nodes, 0)
  }

  function CommandFrom(nodes: seq<string>, k: nat): MsgCmd
    requires nodes != [] && k <= 8
    decreases 8 - k
  {
    if k == 8 then TcpCmdNum
    else if CStr(nodes[0]) == COMMANDS[k] then if COMMAND_NODES[k] == |nodes| then CMDS[k] else TcpCmdNum
    else CommandFrom(nodes, k + 1)
  }

  function StatusOf(r: Scan): ParserStatus {
    match r
    case Done(nodes) => if Command(nodes) == TcpCmdNum then WrongMessage else Ok
    case TooMany(_) => TooManyNodes
    case Outside(_) => OutsideMessage
  }

  // ---------- the parser ----------

  class Parser {
    var parsedMessage: seq<string>
    var command: MsgCmd

    constructor ()
      ensures parsedMessage == [] && command == TcpCmdNum
    {
      parsedMessage, command := [], TcpCmdNum;
    }

    method ParseMsg(msg: string) returns (status: ParserStatus)
      modifies this
      ensures status == StatusOf(Read(msg, 0, [], ""))
      ensures status != OutsideMessage ==> parsedMessage == Read(msg, 0, [], "").nodes
      ensures command == if status == Ok || status == WrongMessage then Command(parsedMessage) else old(command)
    {
      parsedMessage := [];
      var node := "";
      var i: nat := 0;
      ghost var all := Read(msg, 0, [], "");
      while i < |msg|
        invariant Read(msg, i, parsedMessage, node) == all
        invariant command == old(command)
        decreases |msg| - i
      {
        if |parsedMessage| >= MSG_MAX_NODES {
          return TooManyNodes;
        }
        if AtPayload(parsedMessage) {
          var size, ok := GetConfigStream(msg, i);
          if !ok {
            return OutsideMessage;
          }
          i := i + size;
          node := "";
          assert node + [msg[i]] == [msg[i]];
        }
        if msg[i] == '\n' {
          parsedMessage := parsedMessage + [node];
          node := "";
        } else {
          node := node + [msg[i]];
        }
        i := i + 1;
      }
      var found := VerifyAndGetMsgCommand();
      return if found == TcpCmdNum then WrongMessage else Ok;
    }

    /** The payload at `offset`, and its stated length; `ok` is false when that does not fit. */
    method GetConfigStream(msg: string, offset: nat) returns (size: int, ok: bool)
      requires AtPayload(parsedMessage) && offset < |msg|
      modifies this`parsedMessage
      ensures ok == old(Within(msg, offset, parsedMessage))
      ensures size == old(Atoi(CStr(parsedMessage[1]))) && (ok ==> 0 <= size && offset + size < |msg|)
      ensures parsedMessage == old(parsedMessage) + [if ok then ToLf(msg[offset..offset + size]) else ""]
    {
      size := Atoi(CStr(parsedMessage[1]));
      if size < 0 || size + offset >= |msg| {
        parsedMessage := parsedMessage + [""];
        return size, false;
      }
      var stream := "";
      var k := 0;
      while k < size
        invariant 0 <= k <= size && stream == ToLf(msg[offset..offset + k])
      {
        var c := msg[offset + k];
        stream := stream + [if c == '\r' then '\n' else c];
        k := k + 1;
        assert msg[offset..offset + k] == msg[offset..offset + k - 1] + [c];
      }
      parsedMessage := parsedMessage + [stream];
      ok := true;
    }

    method VerifyAndGetMsgCommand() returns (found: MsgCmd)
      modifies this`command
      ensures found == command == Command(parsedMessage)
    {
      if |parsedMessage| > 0 && CStr(parsedMessage[|parsedMessage| - 1]) == END {
        var k := 0;
        while k < 8
          invariant 0 <= k <= 8 && Command(parsedMessage) == CommandFrom(parsedMessage, k)
        {
          if CStr(parsedMessage[0]) == COMMANDS[k] {
            if COMMAND_NODES[k] != |parsedMessage| {
              command := TcpCmdNum;
              return TcpCmdNum;
            }
            command := CMDS[k];
            return command;
          }
          k := k + 1;
        }
      }
      command := TcpCmdNum;
      return TcpCmdNum;
    }
  }

  // ---------- the properties ----------

  /** A line without a newline becomes the next node. */
  lemma {:induction false} ReadLine(msg: string, i: nat, nodes: seq<string>, node: string, line: string)
    requires '\n' !in line && |nodes| < MSG_MAX_NODES && !AtPayload(nodes)
    requires i + |line| < |msg| && msg[i..i + |line|] == line && msg[i + |line|] == '\n'
    ensures Read(msg, i, nodes, node) == Read(msg, i + |line| + 1, nodes + [node + line], "")
    decreases |line|
  {
    if line == [] {
      assert node + line == node;
    } else {
      assert msg[i] == line[0];
      assert msg[i + 1..i + 1 + |line[1..]|] == line[1..];
      ReadLine(msg, i + 1, nodes, node + [line[0]], line[1..]);
      assert node + [line[0]] + line[1..] == node + line;
    }
  }

  /** The payload and the line after it. */
  lemma ReadPayload(msg: string, j: nat, nodes: seq<string>, text: string, line: string)
    requires AtPayload(nodes) && Atoi(CStr(nodes[1])) == |text|
    requires line != [] && '\n' !in line
    requires j <= |msg| && msg[j..] == text + (line + ['\n'])
    ensures Read(msg, j, nodes, "") == Done(nodes + [ToLf(text)] + [line])
  {
    var k := j + |text|;
    PayloadParts(msg, j, k, text, line);
    PayloadTaken(msg, j, k, nodes, text);
    LastLine(msg, k, nodes + [ToLf(text)], line);
  }

  lemma PayloadParts(msg: string, j: nat, k: nat, text: string, line: string)
    requires j <= |msg| && msg[j..] == text + (line + ['\n']) && k == j + |text| && line != []
    ensures k < |msg| && msg[j..k] == text && msg[k..] == line + ['\n'] && msg[k] == line[0]
  {
    assert msg[j..k] == msg[j..][..|text|];
    assert msg[k..] == msg[j..][|text|..];
    assert msg[k] == msg[k..][0];
  }

  lemma PayloadTaken(msg: string, j: nat, k: nat, nodes: seq<string>, text: string)
    requires AtPayload(nodes) && Atoi(CStr(nodes[1])) == |text| && k == j + |text| < |msg| && msg[j..k] == text && msg[k] != '\n'
    ensures Read(msg, j, nodes, "") == Read(msg, k + 1, nodes + [ToLf(text)], [msg[k]])
  {
  }

  lemma LastLine(msg: string, k: nat, nodes: seq<string>, line: string)
    requires |nodes| < MSG_MAX_NODES && !AtPayload(nodes) && '\n' !in line && line != []
    requires k < |msg| && msg[k..] == line + ['\n'] && msg[k] == line[0]
    ensures Read(msg, k + 1, nodes, [line[0]]) == Done(nodes + [line])
  {
    assert msg[k + 1..k + 1 + |line[1..]|] == msg[k..][1..|line|] == line[1..];
    assert msg[k + |line|] == msg[k..][|line|];
    ReadLine(msg, k + 1, nodes, [line[0]], line[1..]);
    assert [line[0]] + line[1..] == line;
  }

  /** A whole line at the front of what is left. */
  lemma ReadOne(msg: string, i: nat, nodes: seq<string>, line: string, rest: string)
    requires i <= |msg| && msg[i..] == line + (['\n'] + rest)
    requires '\n' !in line && |nodes| < MSG_MAX_NODES && !AtPayload(nodes)
    ensures i + |line| + 1 <= |msg| && msg[i + |line| + 1..] == rest
    ensures Read(msg, i, nodes, "") == Read(msg, i + |line| + 1, nodes + [line], "")
  {
    var tail := msg[i..];
    assert msg[i..i + |line|] == tail[..|line|] == line;
    assert msg[i + |line|] == tail[|line|];
    assert msg[i + |line| + 1..] == tail[|line| + 1..] == rest;
    ReadLine(msg, i, nodes, "", line);
    assert "" + line == line;
  }

  /** Two lines at the start of a message. */
  lemma ReadHead(msg: string, cmd: string, size: string, rest: string)
    requires '\n' !in cmd && '\n' !in size && msg == cmd + (['\n'] + (size + (['\n'] + rest)))
    ensures |cmd| + |size| + 2 <= |msg| && msg[|cmd| + |size| + 2..] == rest
    ensures Read(msg, 0, [], "") == Read(msg, |cmd| + |size| + 2, [cmd, size], "")
  {
    assert msg[0..] == msg;
    ReadOne(msg, 0, [], cmd, size + (['\n'] + rest));
    assert [] + [cmd] == [cmd];
    ReadOne(msg, |cmd| + 1, [cmd], size, rest);
    assert [cmd] + [size] == [cmd, size];
  }

  /** A message with a payload: the command, the length of the text, the text itself and the last line. */
  function Message(cmd: string, text: string, end: string): string {
    cmd + (['\n'] + (Decimal(|text|) + (['\n'] + (text + (end + ['\n'])))))
  }

  /** Any configuration text, whatever newlines or END lines it holds, comes back as the third of four
      nodes, with CR turned into LF. */
  lemma SetCfgDelivers(cmd: string, text: string, end: string)
    requires '\n' !in cmd && CStr(cmd) == SET_CFG && '\n' !in end && CStr(end) == END && |text| < 0x8000_0000
    ensures Read(Message(cmd, text, end), 0, [], "") == Done([cmd, Decimal(|text|), ToLf(text), end])
  {
    var size := Decimal(|text|);
    AtoiDecimal(|text|);
    HeadThenPayload(Message(cmd, text, end), cmd, size, text, end, |cmd| + |size| + 2, [cmd, size]);
  }

  lemma HeadThenPayload(msg: string, cmd: string, size: string, text: string, end: string, j: nat, nodes: seq<string>)
    requires '\n' !in cmd && '\n' !in size && '\n' !in end && end != [] && j == |cmd| + |size| + 2
    requires msg == cmd + (['\n'] + (size + (['\n'] + (text + (end + ['\n'])))))
    requires nodes == [cmd, size] && AtPayload(nodes) && Atoi(CStr(size)) == |text|
    ensures Read(msg, 0, [], "") == Done([cmd, size, ToLf(text), end])
  {
    ReadHead(msg, cmd, size, text + (end + ['\n']));
    ReadPayload(msg, j, nodes, text, end);
    assert nodes + [ToLf(text)] + [end] == [cmd, size, ToLf(text), end];
  }

  lemma CommandsDiffer(j: nat, k: nat)
    requires j < k < 8
    ensures COMMANDS[j] != COMMANDS[k] && CMDS[j] != CMDS[k]
  {
    assert COMMANDS[1][4] != COMMANDS[2][4] && COMMANDS[3][4] != COMMANDS[4][4];
  }

  lemma {:induction false} CommandFound(nodes: seq<string>, k: nat, j: nat)
    requires nodes != [] && k <= j < 8 && CStr(nodes[0]) == COMMANDS[j]
    ensures CommandFrom(nodes, k) == if COMMAND_NODES[j] == |nodes| then CMDS[j] else TcpCmdNum
    decreases j - k
  {
    if k < j {
      CommandsDiffer(k, j);
      CommandFound(nodes, k + 1, j);
    }
  }

  lemma {:induction false} CommandNamed(nodes: seq<string>, k: nat) returns (j: nat)
    requires nodes != [] && k <= 8 && CommandFrom(nodes, k) != TcpCmdNum
    ensures k <= j < 8 && CStr(nodes[0]) == COMMANDS[j] && |nodes| == COMMAND_NODES[j] && CommandFrom(nodes, k) == CMDS[j]
    decreases 8 - k
  {
    if CStr(nodes[0]) == COMMANDS[k] {
      j := k;
    } else {
      j := CommandNamed(nodes, k + 1);
    }
  }

  /** A command is recognised exactly by its name in the first node, its number of nodes and END in the last. */
  lemma CommandExactly(nodes: seq<string>, j: nat)
    requires j < 8
    ensures Command(nodes) == CMDS[j] <==>
      nodes != [] && CStr(nodes[|nodes| - 1]) == END && CStr(nodes[0]) == COMMANDS[j] && |nodes| == COMMAND_NODES[j]
  {
    if nodes != [] {
      if CStr(nodes[0]) == COMMANDS[j] { CommandFound(nodes, 0, j); }
      if CommandFrom(nodes, 0) == CMDS[j] {
        var i := CommandNamed(nodes, 0);
        if i < j { CommandsDiffer(i, j); } else if j < i { CommandsDiffer(j, i); }
      }
    }
  }

  /** What the eight commands look like: name, number of nodes and END. */
  lemma CommandsAre(nodes: seq<string>)
    requires nodes != []
    ensures var name, n, ended := CStr(nodes[0]), |nodes|, CStr(nodes[|nodes| - 1]) == "END";
      && (Command(nodes) == TcpSetTime <==> ended && name == "TCP_SET_TIME" && n == 3)
      && (Command(nodes) == TcpPlay <==> ended && name == "TCP_PLAY" && n == 4)
      && (Command(nodes) == TcpStop <==> ended && name == "TCP_STOP" && n == 2)
      && (Command(nodes) == TcpSetCfg <==> ended && name == "TCP_SET_CFG" && n == 4)
      && (Command(nodes) == TcpGetCfg <==> ended && name == "TCP_GET_CFG" && n == 2)
      && (Command(nodes) == TcpSetVolume <==> ended && name == "TCP_SET_VOLUME" && n == 3)
      && (Command(nodes) == TcpReset <==> ended && name == "TCP_RESET" && n == 2)
      && (Command(nodes) == TcpStatus <==> ended && name == "TCP_STATUS" && n == 2)
  {
    CommandExactly(nodes, 0);
    CommandExactly(nodes, 1);
    CommandExactly(nodes, 2);
    CommandExactly(nodes, 3);
    CommandExactly(nodes, 4);
    CommandExactly(nodes, 5);
    CommandExactly(nodes, 6);
    CommandExactly(nodes, 7);
  }

  /** Such nodes are a complete TCP_SET_CFG command. */
  lemma SetCfgCommand(cmd: string, size: string, text: string, end: string)
    requires CStr(cmd) == SET_CFG && CStr(end) == END
    ensures Command([cmd, size, text, end]) == TcpSetCfg && StatusOf(Done([cmd, size, text, end])) == Ok
  {
    CommandExactly([cmd, size, text, end], 3);
  }

  /** The two constants themselves are such lines. */
  lemma ConstantLine(s: string)
    requires s == SET_CFG || s == END
    ensures '\n' !in s && CStr(s) == s
  {
    forall k | 0 <= k < |s|
      ensures 'A' <= s[k] <= '_'
    {
    }
    CStrWhole(s);
  }

  /** What becomes of a configuration message; the two constants are such lines, by ConstantLine. */
  lemma ConfigDelivered(cmd: string, text: string, end: string, nodes: seq<string>)
    requires '\n' !in cmd && CStr(cmd) == SET_CFG && '\n' !in end && CStr(end) == END && |text| < 0x8000_0000
    requires nodes == [cmd, Decimal(|text|), ToLf(text), end]
    ensures Read(Message(cmd, text, end), 0, [], "") == Done(nodes)
    ensures StatusOf(Done(nodes)) == Ok && Command(nodes) == TcpSetCfg
  {
    SetCfgDelivers(cmd, text, end);
    SetCfgCommand(cmd, Decimal(|text|), ToLf(text), end);
  }

  /** The nodes as lines. */
  function Lines(nodes: seq<string>): string {
    if nodes == [] then "" else nodes[0] + (['\n'] + Lines(nodes[1..]))
  }

  predicate Plain(nodes: seq<string>) {
    (forall k :: 0 <= k < |nodes| ==> '\n' !in nodes[k]) && (|nodes| > 2 ==> CStr(nodes[0]) != SET_CFG)
  }

  lemma {:induction false} ReadLines(msg: string, i: nat, nodes: seq<string>, more: seq<string>)
    requires Plain(nodes + more) && i <= |msg| && msg[i..] == Lines(more)
    ensures |nodes + more| <= MSG_MAX_NODES ==> Read(msg, i, nodes, "") == Done(nodes + more)
    ensures |nodes| <= MSG_MAX_NODES < |nodes + more| ==> Read(msg, i, nodes, "") == TooMany((nodes + more)[..MSG_MAX_NODES])
    decreases |more|
  {
    if more == [] {
      assert nodes + more == nodes;
    } else {
      var line := more[0];
      assert line == (nodes + more)[|nodes|];
      assert nodes + more == nodes + [line] + more[1..];
      if |nodes| >= MSG_MAX_NODES {
        assert |msg[i..]| > 0;
        assert (nodes + more)[..|nodes|] == nodes;
      } else {
        assert |nodes| == 2 ==> nodes[0] == (nodes + more)[0];
        ReadOne(msg, i, nodes, line, Lines(more[1..]));
        ReadLines(msg, i + |line| + 1, nodes + [line], more[1..]);
      }
    }
  }

  /** Other messages: a list of lines is read back as it was written, up to five of them; one more and
      the message is refused with the first five kept. */
  lemma LinesComeBack(nodes: seq<string>)
    requires Plain(nodes)
    ensures var r := Read(Lines(nodes), 0, [], "");
      r == if |nodes| <= 5 then Done(nodes) else TooMany(nodes[..5])
  {
    assert [] + nodes == nodes;
    assert Lines(nodes)[0..] == Lines(nodes);
    ReadLines(Lines(nodes), 0, [], nodes);
  }
}
