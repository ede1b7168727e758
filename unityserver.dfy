/** The command dispatcher of the Unity-to-NAO bridge (`processCommands`).
    A received buffer is a newline-separated list of commands. Each line is
    either exactly `DISCONNECT`, which ends processing, or a `|`-separated
    command: `MOVE|<limb>|<position>` or `SAY|<text>`. Everything else is
    ignored. The robot's text-to-speech proxy and the console are modelled
    as one ordered trace of effects; whether a robot is connected is a flag. */
module UnityServer {
  import opened PyStr

  const Separator := '|'
  const DisconnectLine := "DISCONNECT"
  const MoveTag := "MOVE"
  const SayTag := "SAY"

  /** What one received line asks for. */
  datatype Command =
    | Disconnect
    | Move(limb: string, position: string)
    | Say(text: string)
    | Ignored

  /** An observable effect of dispatching a line: a line printed on the
      server's console, or a `say` call on the robot's text-to-speech proxy. */
  datatype Effect = Log(line: string) | Speak(text: string)

  /** The flag `processCommands` returns, and the effects it had on the way. */
  datatype Outcome = Outcome(disconnect: bool, effects: seq<Effect>)

  /** The position field of a MOVE with its enclosing brackets cut off and
      every space removed: `command[2][1:-1].replace(" ", "")`. */
  function CleanPosition(field: string): (position: string)
    ensures |position| <= |field|
  {
    RemoveChar(Slice(field, 1, -1), ' ')
  }

  /** How a line other than `DISCONNECT` is read from its `|`-separated
      fields: the tag comes first, and the field count must match the tag. */
  function ParseFields(fields: seq<string>): (c: Command)
    requires |fields| >= 1
    ensures !c.Disconnect?
  {
    if fields[0] == MoveTag && |fields| == 3 then Move(fields[1], CleanPosition(fields[2]))
    else if fields[0] == SayTag && |fields| == 2 then Say(fields[1])
    else Ignored
  }

  /** How `processCommands` reads one line. */
  function ParseLine(line: string): (c: Command)
    ensures c.Disconnect? <==> line == DisconnectLine
  {
    if line == DisconnectLine then Disconnect else ParseFields(Split(line, Separator))
  }

  /** The effects of one command other than `DISCONNECT`: the console line
      of `print command[0], command[1], "to", position` or of
      `print command[0] + ":", command[1]`, then, with a robot connected,
      the spoken acknowledgment or text. */
  function CommandEffects(c: Command, connected: bool): (effects: seq<Effect>)
    ensures (c.Move? || c.Say?) <==> effects != []
    ensures effects != [] ==> effects[0].Log? && |effects| <= 2
    ensures |effects| == 2 ==> effects[1].Speak?
    ensures !connected ==> |effects| <= 1
    ensures connected && effects != [] ==> |effects| == 2
  {
    match c
    case Move(limb, position) =>
      [Log(PrintLine([MoveTag, limb, "to", position]))] + (if connected then [Speak(MoveTag)] else [])
    case Say(text) =>
      [Log(PrintLine([SayTag + ":", text]))] + (if connected then [Speak(text)] else [])
    case _ => []
  }

  /** The effects of a run of lines, in order, when none of them stops processing. */
  function EffectsOf(lines: seq<string>, connected: bool): seq<Effect> {
    if lines == [] then []
    else CommandEffects(ParseLine(lines[0]), connected) + EffectsOf(lines[1..], connected)
  }

  /** `processCommands` over the lines of a buffer: the first `DISCONNECT`
      line stops processing with `true`; otherwise every line is dispatched. */
  function Dispatch(lines: seq<string>, connected: bool): Outcome {
    if lines == [] then Outcome(false, [])
    else if lines[0] == DisconnectLine then Outcome(true, [])
    else
      var rest := Dispatch(lines[1..], connected);
      Outcome(rest.disconnect, CommandEffects(ParseLine(lines[0]), connected) + rest.effects)
  }

  /** The texts passed to the robot's `say`, in call order. */
  function Spoken(effects: seq<Effect>): (said: seq<string>)
    ensures |said| <= |effects|
  {
    if effects == [] then []
    else (if effects[0].Speak? then [effects[0].text] else []) + Spoken(effects[1..])
  }

  /** `processCommands(commands, naoConnection)`: walks the lines of the
      buffer in order, returning `true` at the first `DISCONNECT` line and
      `false` after the last line. */
  method ProcessCommands(commands: string, connected: bool) returns (disconnect: bool, effects: seq<Effect>)
    ensures disconnect <==> DisconnectLine in SplitLines(commands)
    ensures Outcome(disconnect, effects) == Dispatch(SplitLines(commands), connected)
  {
    var lines := SplitLines(commands);
    effects := [];
    for k := 0 to |lines|
      invariant DisconnectLine !in lines[..k]
      invariant effects == EffectsOf(lines[..k], connected)
    {
      if lines[k] == DisconnectLine {
        DispatchStopsAtIndex(lines, k, connected);
        return true, effects;
      }
      EffectsOfNext(lines, k, connected);
      effects := effects + CommandEffects(ParseLine(lines[k]), connected);
    }
    assert lines[..|lines|] == lines;
    DispatchNoDisconnect(lines, connected);
    return false, effects;
  }

  lemma EffectsOfNext(lines: seq<string>, k: nat, connected: bool)
    requires k < |lines|
    requires DisconnectLine !in lines[..k] && lines[k] != DisconnectLine
    ensures DisconnectLine !in lines[..k + 1]
    ensures EffectsOf(lines[..k + 1], connected)
      == EffectsOf(lines[..k], connected) + CommandEffects(ParseLine(lines[k]), connected)
  {
    assert lines[..k + 1] == lines[..k] + [lines[k]];
    EffectsOfAppend(lines[..k], [lines[k]], connected);
    assert EffectsOf([lines[k]], connected) == CommandEffects(ParseLine(lines[k]), connected) + [];
  }

  lemma DispatchStopsAtIndex(lines: seq<string>, k: nat, connected: bool)
    requires k < |lines|
    requires DisconnectLine !in lines[..k] && lines[k] == DisconnectLine
    ensures DisconnectLine in lines
    ensures Dispatch(lines, connected) == Outcome(true, EffectsOf(lines[..k], connected))
  {
    assert lines == lines[..k] + [DisconnectLine] + lines[k + 1..];
    DispatchStopsAtDisconnect(lines[..k], lines[k + 1..], connected);
  }

  // ---------------------------------------------------------------------
  // Disconnect and ordering
  // ---------------------------------------------------------------------

  /** The result is `true` exactly when some line is exactly `DISCONNECT`. */
  lemma {:induction false} DispatchDisconnectIff(lines: seq<string>, connected: bool)
    ensures Dispatch(lines, connected).disconnect <==> DisconnectLine in lines
  {
    if lines != [] && lines[0] != DisconnectLine {
      DispatchDisconnectIff(lines[1..], connected);
      assert lines == [lines[0]] + lines[1..];
    }
  }

  /** Without a `DISCONNECT` line every line is dispatched, in order. */
  lemma {:induction false} DispatchNoDisconnect(lines: seq<string>, connected: bool)
    requires DisconnectLine !in lines
    ensures Dispatch(lines, connected) == Outcome(false, EffectsOf(lines, connected))
  {
    if lines != [] {
      assert lines[0] in lines;
      assert forall l :: l in lines[1..] ==> l in lines;
      DispatchNoDisconnect(lines[1..], connected);
    }
  }

  /** The first `DISCONNECT` line ends processing: the lines before it are
      dispatched, and nothing after it has any effect. */
  lemma {:induction false} DispatchStopsAtDisconnect(before: seq<string>, after: seq<string>, connected: bool)
    requires DisconnectLine !in before
    ensures Dispatch(before + [DisconnectLine] + after, connected) == Outcome(true, EffectsOf(before, connected))
  {
    var lines := before + [DisconnectLine] + after;
    if before != [] {
      assert before[0] in before;
      assert lines[0] == before[0];
      assert lines[1..] == before[1..] + [DisconnectLine] + after;
      assert forall l :: l in before[1..] ==> l in before;
      DispatchStopsAtDisconnect(before[1..], after, connected);
    }
  }

  /** The effects of consecutive runs of lines follow each other in arrival order. */
  lemma {:induction false} EffectsOfAppend(a: seq<string>, b: seq<string>, connected: bool)
    ensures EffectsOf(a + b, connected) == EffectsOf(a, connected) + EffectsOf(b, connected)
  {
    if a == [] {
      assert a + b == b;
    } else {
      var rest := a[1..];
      assert a == [a[0]] + rest;
      assert a + b == [a[0]] + (rest + b);
      EffectsOfCons(a[0], rest, connected);
      EffectsOfCons(a[0], rest + b, connected);
      EffectsOfAppend(rest, b, connected);
      AppendAssociates(CommandEffects(ParseLine(a[0]), connected), EffectsOf(rest, connected), EffectsOf(b, connected));
    }
  }

  lemma EffectsOfCons(line: string, rest: seq<string>, connected: bool)
    ensures EffectsOf([line] + rest, connected) == CommandEffects(ParseLine(line), connected) + EffectsOf(rest, connected)
  {
    assert ([line] + rest)[0] == line && ([line] + rest)[1..] == rest;
  }

  /** The speech trace of consecutive effects is the concatenation of their traces. */
  lemma {:induction false} SpokenAppend(a: seq<Effect>, b: seq<Effect>)
    ensures Spoken(a + b) == Spoken(a) + Spoken(b)
  {
    if a == [] {
      assert a + b == b;
    } else {
      assert (a + b)[0] == a[0];
      assert (a + b)[1..] == a[1..] + b;
      SpokenAppend(a[1..], b);
    }
  }

  /** Without a robot connection nothing is spoken, and the returned flag is
      the same as with one. */
  lemma {:induction false} DisconnectedRobotIsSilent(lines: seq<string>)
    ensures Spoken(Dispatch(lines, false).effects) == []
    ensures Dispatch(lines, false).disconnect == Dispatch(lines, true).disconnect
  {
    if lines != [] && lines[0] != DisconnectLine {
      var head := CommandEffects(ParseLine(lines[0]), false);
      DisconnectedRobotIsSilent(lines[1..]);
      SpokenAppend(head, Dispatch(lines[1..], false).effects);
      match ParseLine(lines[0])
      case Move(_, _) => assert Spoken(head[1..]) == [];
      case Say(_) => assert Spoken(head[1..]) == [];
      case _ =>
    }
  }

  // ---------------------------------------------------------------------
  // Reading one line
  // ---------------------------------------------------------------------

  /** A MOVE limb and a SAY text never hold the separator, and a MOVE
      position never holds a space. */
  lemma ParseLineFields(line: string)
    ensures ParseLine(line).Move? ==> Separator !in ParseLine(line).limb && ' ' !in ParseLine(line).position
    ensures ParseLine(line).Say? ==> Separator !in ParseLine(line).text
  {
    SplitNoSeparator(line, Separator);
    var fields := Split(line, Separator);
    if ParseLine(line).Move? {
      assert fields[2] in fields;
      CleanPositionNoSpaces(fields[2]);
    }
  }

  /** `SAY|<text>` is the only shape read as a `Say`, and its text is kept verbatim. */
  lemma ParseSayIff(line: string, text: string)
    ensures ParseLine(line) == Say(text) <==> line == SayTag + [Separator] + text && Separator !in text
  {
    if line == SayTag + [Separator] + text && Separator !in text {
      var fields := [SayTag, text];
      JoinTwo(SayTag, text, Separator);
      TaggedLineNotDisconnect(fields);
      assert Separator !in SayTag;
      SplitJoin(fields, Separator);
      assert ParseFields(fields) == Say(text);
    }
    if ParseLine(line) == Say(text) {
      var fields := Split(line, Separator);
      assert ParseFields(fields) == Say(text);
      assert fields == [SayTag, text];
      JoinSplit(line, Separator);
      JoinTwo(SayTag, text, Separator);
      SplitNoSeparator(line, Separator);
      assert Separator !in fields[1];
    }
  }

  /** A line that starts with the field MOVE or SAY is not `DISCONNECT`. */
  lemma TaggedLineNotDisconnect(fields: seq<string>)
    requires |fields| >= 1 && (fields[0] == MoveTag || fields[0] == SayTag)
    ensures Join(fields, Separator) != DisconnectLine
  {
    var line := Join(fields, Separator);
    if |fields| == 1 {
      assert line == fields[0];
      assert |line| < |DisconnectLine|;
    } else {
      assert line == fields[0] + [Separator] + Join(fields[1..], Separator);
      assert line[0] == fields[0][0] != DisconnectLine[0];
    }
  }

  /** A `SAY` with any field count other than two is ignored. */
  lemma SayArity(fields: seq<string>)
    requires |fields| >= 1 && fields[0] == SayTag && |fields| != 2
    requires forall f :: f in fields ==> Separator !in f
    ensures ParseLine(Join(fields, Separator)) == Ignored
  {
    var line := Join(fields, Separator);
    TaggedLineNotDisconnect(fields);
    SplitJoin(fields, Separator);
    assert ParseFields(fields) == Ignored by {
      assert |SayTag| != |MoveTag|;
    }
  }

  /** `MOVE|<limb>|<position>` is read as a `Move` of that limb, with the
      position cleaned up. */
  lemma ParseMoveLine(limb: string, field: string)
    requires Separator !in limb && Separator !in field
    ensures ParseLine(MoveTag + [Separator] + limb + [Separator] + field) == Move(limb, CleanPosition(field))
  {
    var fields := [MoveTag, limb, field];
    var line := MoveTag + [Separator] + limb + [Separator] + field;
    JoinThree(MoveTag, limb, field, Separator);
    TaggedLineNotDisconnect(fields);
    assert Separator !in MoveTag;
    SplitJoin(fields, Separator);
    assert ParseFields(fields) == Move(limb, CleanPosition(field));
  }

  /** Only lines of the shape `MOVE|<limb>|<field>` are read as a `Move`. */
  lemma ParseMoveShape(line: string)
    requires ParseLine(line).Move?
    ensures exists field :: (Separator !in field
      && line == MoveTag + [Separator] + ParseLine(line).limb + [Separator] + field
      && ParseLine(line).position == CleanPosition(field))
  {
    var fields := Split(line, Separator);
    JoinSplit(line, Separator);
    SplitNoSeparator(line, Separator);
    assert fields == [fields[0], fields[1], fields[2]];
    JoinThree(fields[0], fields[1], fields[2], Separator);
    assert Separator !in fields[2];
  }

  /** A `MOVE` with any field count other than three is ignored. */
  lemma MoveArity(fields: seq<string>)
    requires |fields| >= 1 && fields[0] == MoveTag && |fields| != 3
    requires forall f :: f in fields ==> Separator !in f
    ensures ParseLine(Join(fields, Separator)) == Ignored
  {
    var line := Join(fields, Separator);
    TaggedLineNotDisconnect(fields);
    SplitJoin(fields, Separator);
    assert ParseFields(fields) == Ignored by {
      assert |SayTag| != |MoveTag|;
    }
  }

  /** A line whose first field is neither `MOVE` nor `SAY` is ignored. */
  lemma OtherTagIgnored(line: string)
    requires line != DisconnectLine
    requires Split(line, Separator)[0] != MoveTag && Split(line, Separator)[0] != SayTag
    ensures ParseLine(line) == Ignored
  {
  }

  /** The cleaned position holds no space and only characters of the field. */
  lemma CleanPositionNoSpaces(field: string)
    ensures ' ' !in CleanPosition(field)
    ensures forall c :: c in CleanPosition(field) ==> c in field
  {
    var inner := Slice(field, 1, -1);
    RemoveCharRemoves(inner, ' ');
    DropEnds(field);
    assert forall c :: c in inner ==> c in field;
  }

  /** The position is the field without its first and last character and
      without spaces; a field shorter than two characters gives nothing. */
  lemma CleanPositionCuts(field: string)
    ensures |field| >= 2 ==> CleanPosition(field) == RemoveChar(field[1..|field| - 1], ' ')
    ensures |field| < 2 ==> CleanPosition(field) == []
  {
    DropEnds(field);
  }

  /** A bracketed position without spaces comes out as what is inside the brackets. */
  lemma CleanPositionBracketed(open: char, inner: string, close: char)
    requires ' ' !in inner
    ensures CleanPosition([open] + inner + [close]) == inner
  {
    var field := [open] + inner + [close];
    CleanPositionCuts(field);
    assert field[1..|field| - 1] == inner;
    RemoveCharIdentity(inner, ' ');
  }

  /** The comma-separated components of a position `(x, y, z)` lose the
      spaces after their commas: the position becomes `x,y,z`. */
  lemma CleanCoordinates(x: string, y: string, z: string)
    requires ' ' !in x && ' ' !in y && ' ' !in z
    ensures CleanPosition("(" + x + ", " + y + ", " + z + ")") == x + "," + y + "," + z
  {
    var sep := ", ";
    var a := x + sep;
    var b := a + y;
    var c := b + sep;
    var inner := c + z;
    var field := "(" + inner + ")";
    assert field == "(" + x + ", " + y + ", " + z + ")";
    CleanPositionCuts(field);
    assert field[1..|field| - 1] == inner;
    assert RemoveChar(sep, ' ') == "," by {
      assert sep[0] == ',' && sep[1..] == " " && sep[1..][1..] == [];
    }
    RemoveCharIdentity(x, ' ');
    RemoveCharIdentity(y, ' ');
    RemoveCharIdentity(z, ' ');
    RemoveCharAppend(c, z, ' ');
    RemoveCharAppend(b, sep, ' ');
    RemoveCharAppend(a, y, ' ');
    RemoveCharAppend(x, sep, ' ');
    assert RemoveChar(a, ' ') == x + ",";
    assert RemoveChar(b, ' ') == x + "," + y;
    assert RemoveChar(c, ' ') == x + "," + y + ",";
    assert RemoveChar(inner, ' ') == x + "," + y + "," + z;
  }

  /** What one line produces on its own. */
  lemma DispatchOneLine(line: string, connected: bool)
    ensures line == DisconnectLine ==> Dispatch([line], connected) == Outcome(true, [])
    ensures line != DisconnectLine ==> Dispatch([line], connected) == Outcome(false, CommandEffects(ParseLine(line), connected))
  {
    assert [line][1..] == [];
  }

  /** A `MOVE` line with exactly three fields says "MOVE" once with a robot
      connected, and never anything else. */
  lemma MoveSpeech(limb: string, field: string, connected: bool)
    requires Separator !in limb && Separator !in field
    ensures Spoken(CommandEffects(ParseLine(MoveTag + [Separator] + limb + [Separator] + field), connected))
      == if connected then [MoveTag] else []
  {
    ParseMoveLine(limb, field);
    var effects := CommandEffects(Move(limb, CleanPosition(field)), connected);
    assert effects[1..] == if connected then [Speak(MoveTag)] else [];
    if connected {
      assert effects[1..][1..] == [];
    }
  }

  /** A `SAY|<text>` line speaks its text verbatim once with a robot connected. */
  lemma SaySpeech(text: string, connected: bool)
    requires Separator !in text
    ensures Spoken(CommandEffects(ParseLine(SayTag + [Separator] + text), connected))
      == if connected then [text] else []
  {
    ParseSayIff(SayTag + [Separator] + text, text);
    var effects := CommandEffects(Say(text), connected);
    assert effects[1..] == if connected then [Speak(text)] else [];
    if connected {
      assert effects[1..][1..] == [];
    }
  }

  /** The MOVE console line: the tag, a space, the limb, a space unless the
      limb ends in a tab, vertical tab or form feed, "to", a space and the
      position. */
  lemma MoveConsoleLine(limb: string, position: string)
    ensures PrintLine([MoveTag, limb, "to", position])
      == MoveTag + " " + limb + (if SetsSoftSpace(limb) then " " else "") + "to " + position
  {
    assert SetsSoftSpace(MoveTag) && SetsSoftSpace("to");
    PrintLineFour(MoveTag, limb, "to", position);
  }

  /** The SAY console line: "SAY:", a space and the text. */
  lemma SayConsoleLine(text: string)
    ensures PrintLine([SayTag + ":", text]) == SayTag + ": " + text
  {
    var tag := SayTag + ":";
    assert SetsSoftSpace(tag);
    PrintLineJoin([tag, text]);
    JoinTwo(tag, text, ' ');
  }

  // ---------------------------------------------------------------------
  // Whole buffers
  // ---------------------------------------------------------------------

  /** An empty receive has no lines: no effect, and processing goes on. */
  lemma EmptyBuffer(connected: bool)
    ensures Dispatch(SplitLines(""), connected) == Outcome(false, [])
  {
  }

  /** An ignored line has no effect at all: processing goes on with the next line. */
  lemma IgnoredLineSkipped(line: string, rest: seq<string>, connected: bool)
    requires ParseLine(line) == Ignored
    ensures Dispatch([line] + rest, connected) == Dispatch(rest, connected)
  {
    assert ([line] + rest)[0] == line && ([line] + rest)[1..] == rest;
  }

  /** Only a whole line equal to `DISCONNECT` ends processing: a line that
      carries more fields after it is ignored like any other unknown tag. */
  lemma DisconnectWithFieldIgnored(rest: string)
    ensures ParseLine(DisconnectLine + [Separator] + rest) == Ignored
  {
    SplitSeparator(DisconnectLine, rest, Separator);
    assert DisconnectLine + [Separator] + rest != DisconnectLine by {
      assert |DisconnectLine + [Separator] + rest| > |DisconnectLine|;
    }
  }

  /** `DISCONNECT` with other text around it on the line, such as a
      leading or trailing space, is ignored too. */
  lemma SurroundedDisconnectIgnored(before: string, after: string)
    requires before + after != []
    requires Separator !in before && Separator !in after
    ensures ParseLine(before + DisconnectLine + after) == Ignored
  {
    var line := before + DisconnectLine + after;
    assert |line| > |DisconnectLine|;
    assert Separator !in line by {
      assert Separator !in DisconnectLine;
      forall i | 0 <= i < |line| ensures line[i] != Separator {
        if i < |before| {
          assert line[i] == before[i];
        } else if i < |before| + |DisconnectLine| {
          assert line[i] == DisconnectLine[i - |before|];
        } else {
          assert line[i] == after[i - |before| - |DisconnectLine|];
        }
      }
    }
    SplitJoin([line], Separator);
  }

  /** The concrete case of a space typed before the command. */
  lemma SpacedDisconnectIgnored()
    ensures ParseLine(" " + DisconnectLine) == Ignored
  {
    SurroundedDisconnectIgnored(" ", []);
    assert " " + DisconnectLine + [] == " " + DisconnectLine;
  }

  /** A buffer holding a single `SAY|<text>` line, such as the greeting
      `SAY|Connected to Nao` the server sends itself once connected: one
      console line and, with a robot connected, the text spoken. */
  lemma SayBuffer(text: string, connected: bool)
    requires Separator !in text && NoLineBreak(text)
    ensures Dispatch(SplitLines(SayTag + [Separator] + text), connected)
      == Outcome(false, [Log(SayTag + ": " + text)] + if connected then [Speak(text)] else [])
  {
    var line := SayTag + [Separator] + text;
    SayLineNoBreaks(text);
    SayConsoleLine(text);
    SplitLinesOneLine(line);
    ParseSayIff(line, text);
    DispatchOneLine(line, connected);
  }

  /** A buffer holding a MOVE line and then a SAY line runs them in that
      order: each prints its console line, and with a robot connected says
      "MOVE" and then the text. The MOVE does not move the robot. */
  lemma MoveThenSay(limb: string, field: string, text: string, connected: bool)
    requires Separator !in limb && Separator !in field && Separator !in text
    requires NoLineBreak(limb) && NoLineBreak(field) && NoLineBreak(text)
    ensures var move := MoveTag + [Separator] + limb + [Separator] + field;
      var say := SayTag + [Separator] + text;
      Dispatch(SplitLines(move + "\n" + say + "\n"), connected)
      == Outcome(false,
           [Log(MoveTag + " " + limb + (if SetsSoftSpace(limb) then " " else "") + "to " + CleanPosition(field))]
           + (if connected then [Speak(MoveTag)] else [])
           + [Log(SayTag + ": " + text)] + (if connected then [Speak(text)] else []))
  {
    var move := MoveTag + [Separator] + limb + [Separator] + field;
    var say := SayTag + [Separator] + text;
    MoveLineNoBreaks(limb, field);
    SayLineNoBreaks(text);
    SplitTwoLines(move, say);
    ParseMoveLine(limb, field);
    ParseSayIff(say, text);
    MoveConsoleLine(limb, CleanPosition(field));
    SayConsoleLine(text);
    DispatchTwoLines(move, say, connected);
  }

  lemma MoveLineNoBreaks(limb: string, field: string)
    requires NoLineBreak(limb) && NoLineBreak(field)
    ensures NoLineBreak(MoveTag + [Separator] + limb + [Separator] + field)
  {
    assert NoLineBreak(MoveTag + [Separator]);
    NoLineBreakAppend(MoveTag + [Separator], limb);
    NoLineBreakAppend(MoveTag + [Separator] + limb, [Separator]);
    NoLineBreakAppend(MoveTag + [Separator] + limb + [Separator], field);
  }

  lemma SayLineNoBreaks(text: string)
    requires NoLineBreak(text)
    ensures NoLineBreak(SayTag + [Separator] + text)
  {
    assert NoLineBreak(SayTag + [Separator]);
    NoLineBreakAppend(SayTag + [Separator], text);
  }

  /** A DISCONNECT line is recognised after any of the three line
      terminators, so a client ending its lines with "\r\n" or "\r" can
      disconnect just as one ending them with "\n". */
  lemma TerminatedDisconnect(line: string, term: string, connected: bool)
    requires NoLineBreak(line) && line != DisconnectLine
    requires term == "\n" || term == "\r\n" || term == "\r"
    ensures Dispatch(SplitLines(line + term + DisconnectLine), connected)
      == Outcome(true, CommandEffects(ParseLine(line), connected))
  {
    SplitLinesTerminator(line, term, DisconnectLine);
    DisconnectLineAlone();
    LineThenDisconnect(line, connected);
  }

  lemma DisconnectLineAlone()
    ensures SplitLines(DisconnectLine) == [DisconnectLine]
  {
    assert NoLineBreak(DisconnectLine);
    SplitLinesOneLine(DisconnectLine);
  }

  lemma LineThenDisconnect(line: string, connected: bool)
    requires line != DisconnectLine
    ensures Dispatch([line] + [DisconnectLine], connected)
      == Outcome(true, CommandEffects(ParseLine(line), connected))
  {
    assert ([line] + [DisconnectLine])[1..] == [DisconnectLine];
  }

  /** Two lines, neither of them `DISCONNECT`, are dispatched in order. */
  lemma DispatchTwoLines(a: string, b: string, connected: bool)
    requires a != DisconnectLine && b != DisconnectLine
    ensures Dispatch([a, b], connected)
      == Outcome(false, CommandEffects(ParseLine(a), connected) + CommandEffects(ParseLine(b), connected))
  {
    assert [a, b][1..] == [b];
    DispatchOneLine(b, connected);
  }
}
