# PythonNao bridge: command dispatcher and image reshaping in Dafny

This project models two pieces of logic from a bridge that relays
commands from a Unity client to a NAO humanoid robot.

- **`processCommands`** (`Merged/unityserver.py`) handles one received
  text buffer. It splits the buffer into lines and stops with `True` at
  the first line that is exactly `DISCONNECT`. Every other line is split
  on `|`. `MOVE|<limb>|<position>` (exactly three fields) prints the limb
  and the cleaned-up position. With a robot connected, it also says "MOVE"
  through the robot's text-to-speech proxy. `SAY|<text>` (exactly two
  fields) prints the text and, with a robot connected, says it. Every
  other line is ignored. The function returns `False` once all lines are
  handled.
- **The reshaping loop of `to_image.py`** turns a raw camera dump (a byte
  string) into 1187 rows of 14 RGB pixels. Each row is 42 channel values.

Modules:

- `PyStr` (`pystr.dfy`) models the Python 2 string built-ins the
  dispatcher uses. These are `str.splitlines()` (breaks at `\n`, `\r` and
  `\r\n` only, as for a Python 2 byte string), `str.split("|")`, slicing
  with negative bounds (`s[1:-1]`), `replace(" ", "")` and the line a
  `print a, b, ...` statement writes. Each one comes with its inverse or a
  reference definition, proved by lemmas.
- `UnityServer` (`unityserver.dfy`) holds the dispatcher. `ParseLine`
  reads one line into a `Command`. `CommandEffects` gives what that line
  does. `Dispatch` is the recursive specification over the lines, and the
  method `ProcessCommands` is the source's `for` loop with its early
  `return`, proved equal to `Dispatch`. The text-to-speech proxy and the
  console are one ordered trace of `Effect`s: `Log` for a `print`,
  `Speak` for a `say` call. The `naoConnection` object is the flag
  `connected`, which is true when a robot is attached. A `Log` line is
  what Python 2's `print` writes, soft-space rule included: the space
  between two items is left out when the first ends in C whitespace
  other than a space (tab, vertical tab, form feed, line feed or carriage
  return; only the first three can end a field of a received line, which
  is split at line breaks), so a MOVE limb ending in a tab is followed directly
  by "to".
- `ToImage` (`to_image.dfy`) holds the nested loop as the method
  `ToRgbRows`. The loop builds `rgbRow` by appending and `rgbArray` by
  `append`. The method is proved equal to the specification `Image`.
  Lemmas give the row count, the row length, the exact byte offsets, the
  flattening round-trip and the fact that only the first 49854 bytes are
  read. An input that is too short gives `IndexError`. This is the
  exception Python raises there, and it is not excluded by a precondition.

In the source, a MOVE command only prints and says "MOVE". The call that
would move the arm, `setPosition`, is a commented-out FIXME
(`Merged/unityserver.py:63-67`). No coordinates are parsed as numbers,
and no transform from tracker axes to robot axes exists in the code. The
model follows the code, so it has no motion effect and no coordinate
transform. The position reaches only the console line.

## Model

| member | source | states |
|---|---|---|
| PyStr.SplitLines | Merged/unityserver.py:50 | there are no lines exactly when the buffer is empty |
| PyStr.SplitLinesNoBreaks | Merged/unityserver.py:50 | no line holds a line break |
| PyStr.SplitLinesNewline | Merged/unityserver.py:50 | a line without breaks followed by "\n" is split off as the first line, and splitting goes on after it |
| PyStr.SplitLinesTerminator | Merged/unityserver.py:50 | a line without breaks ends at "\n", at "\r\n" taken as one terminator, or at a lone "\r" not followed by "\n"; it is split off as the first line and splitting goes on after the terminator |
| PyStr.SplitTwoLines | Merged/unityserver.py:50 | two lines, each followed by "\n", split back into exactly those two lines |
| PyStr.PrintLine | Merged/unityserver.py:59 | a print statement's line starts with its first item, and no items give an empty line |
| PyStr.PrintItemsJoin | Merged/unityserver.py:59 | when every item but the last sets the soft space, the items come out joined by single spaces, after a pending space if there is one |
| PyStr.PrintLineJoin | Merged/unityserver.py:59 | with no item but the last ending in C whitespace other than a space (tab, VT, FF, LF or CR), the line is the items joined by single spaces |
| PyStr.PrintItemsNoSpaceAfter | Merged/unityserver.py:59 | an item ending in C whitespace other than a space (tab, VT, FF, LF or CR), at any position in a print, is followed directly by the next item |
| PyStr.PrintLineFour | Merged/unityserver.py:59 | a four-item print whose first and third items set the soft space is the items separated by single spaces, except that nothing separates the second and third items when the second ends in C whitespace other than a space |
| PyStr.SplitLinesJoinLines | Merged/unityserver.py:50 | splitting lines that were each written followed by "\n" gives those lines back |
| PyStr.SplitLinesContents | Merged/unityserver.py:50 | the lines laid end to end are the buffer with only its line-break characters removed (nothing else lost or reordered) |
| PyStr.SplitLinesOneLine | Merged/unityserver.py:50 | a non-empty buffer without breaks is one line |
| PyStr.Split | Merged/unityserver.py:55 | splitting on the separator always gives at least one field |
| PyStr.SplitNoSeparator | Merged/unityserver.py:55 | no field of a split holds the separator |
| PyStr.JoinSplit | Merged/unityserver.py:55 | joining the fields with the separator gives back the line |
| PyStr.SplitJoin | Merged/unityserver.py:55 | splitting fields joined with the separator gives back the fields, when none holds it |
| PyStr.DropEnds | Merged/unityserver.py:58 | Python's `s[1:-1]` is `s` without its first and last character, and empty for strings shorter than two |
| PyStr.RemoveChar | Merged/unityserver.py:58 | `replace(c, "")` never grows the string |
| PyStr.RemoveCharRemoves | Merged/unityserver.py:58 | `replace(c, "")` leaves no `c` and adds no character that was not in the string |
| PyStr.RemoveCharIdentity | Merged/unityserver.py:58 | `replace(c, "")` changes nothing exactly when `c` does not occur |
| PyStr.RemoveCharAppend | Merged/unityserver.py:58 | `replace(c, "")` works piecewise on a concatenation |
| UnityServer.CleanPosition | Merged/unityserver.py:58 | the cleaned position is never longer than the field |
| UnityServer.CleanPositionNoSpaces | Merged/unityserver.py:58 | the cleaned position holds no space and only characters of the field |
| UnityServer.CleanPositionCuts | Merged/unityserver.py:58 | the position is the field without its first and last character, with every space removed; a field shorter than two gives "" |
| UnityServer.CleanPositionBracketed | Merged/unityserver.py:58 | a bracketed field with no spaces inside gives exactly what is inside the brackets |
| UnityServer.CleanCoordinates | Merged/unityserver.py:58 | a position written `(x, y, z)` with space-free components becomes `x,y,z` |
| UnityServer.ParseLine | Merged/unityserver.py:52-72 | a line is `Disconnect` exactly when it equals "DISCONNECT" |
| UnityServer.ParseFields | Merged/unityserver.py:55-72 | the fields of a line other than "DISCONNECT" never read as `Disconnect` |
| UnityServer.ParseLineFields | Merged/unityserver.py:55-72 | a MOVE limb and a SAY text hold no separator, and a MOVE position holds no space |
| UnityServer.ParseSayIff | Merged/unityserver.py:68-72 | a line reads as `Say(text)` exactly when it is the tag SAY, one separator, then a text without separator (both directions) |
| UnityServer.SayArity | Merged/unityserver.py:68-69 | a SAY with one field or with three or more fields is ignored |
| UnityServer.ParseMoveLine | Merged/unityserver.py:56-58 | the tag MOVE, a limb and a field joined by the separator read as a `Move` of that limb with the cleaned-up field as position |
| UnityServer.ParseMoveShape | Merged/unityserver.py:55-58 | only lines made of the tag MOVE, a limb and a field joined by the separator read as a `Move`, and the position comes from that field |
| UnityServer.MoveArity | Merged/unityserver.py:56-57 | a MOVE with any field count other than three is ignored |
| UnityServer.OtherTagIgnored | Merged/unityserver.py:55-72 | a line whose first field is neither MOVE nor SAY is ignored |
| UnityServer.IgnoredLineSkipped | Merged/unityserver.py:51-72 | an ignored line has no effect, and processing goes on with the next line |
| UnityServer.DisconnectWithFieldIgnored | Merged/unityserver.py:52 | DISCONNECT followed by a separator and any further text does not end processing; it is ignored |
| UnityServer.SurroundedDisconnectIgnored | Merged/unityserver.py:52 | DISCONNECT with any other text before or after it on the line, and no separator, is ignored |
| UnityServer.SpacedDisconnectIgnored | Merged/unityserver.py:52 | " DISCONNECT" does not end processing; it is ignored |
| UnityServer.DispatchOneLine | Merged/unityserver.py:51-72 | a lone "DISCONNECT" returns true with no effect; any other lone line returns false with that line's effects |
| UnityServer.CommandEffects | Merged/unityserver.py:59-61 | a MOVE or SAY has effects and nothing else has; the first effect is the one console line, any further effect is a `say` call, and there is exactly one with a robot connected and none without; what is said is stated by `MoveSpeech` and `SaySpeech` |
| UnityServer.MoveConsoleLine | Merged/unityserver.py:59 | the MOVE console line is "MOVE", a space, the limb, a space unless the limb ends in C whitespace other than a space (tab, VT or FF in a received line), then "to", a space and the position |
| UnityServer.SayConsoleLine | Merged/unityserver.py:70 | the SAY console line is "SAY:", a space and the text |
| UnityServer.MoveSpeech | Merged/unityserver.py:56-61 | a three-field MOVE says "MOVE" exactly once with a robot connected and says nothing without one |
| UnityServer.SaySpeech | Merged/unityserver.py:68-72 | a two-field SAY says its text verbatim exactly once with a robot connected and nothing without one |
| UnityServer.ProcessCommands | Merged/unityserver.py:48-73 | the loop returns true exactly when some line is "DISCONNECT", and its flag and effect trace equal `Dispatch` over the lines |
| UnityServer.DispatchDisconnectIff | Merged/unityserver.py:50-53 | the result is true exactly when some line equals "DISCONNECT" |
| UnityServer.DispatchNoDisconnect | Merged/unityserver.py:73 | with no "DISCONNECT" line the result is false and every line is dispatched in order |
| UnityServer.DispatchStopsAtDisconnect | Merged/unityserver.py:51-53 | at the first "DISCONNECT" the result is true, the lines before it are dispatched and no line after it has any effect |
| UnityServer.EffectsOfAppend | Merged/unityserver.py:51 | the effects of two runs of lines follow each other in arrival order |
| UnityServer.DisconnectedRobotIsSilent | Merged/unityserver.py:60 | without a robot connection nothing is said, and the returned flag is the same as with one |
| UnityServer.EmptyBuffer | Merged/unityserver.py:73 | an empty buffer has no lines, so the result is false with no effect |
| UnityServer.SayBuffer | Merged/unityserver.py:85 | a buffer holding one SAY line with a text, like the greeting sent on connection, prints one line, says the text when connected and returns false |
| UnityServer.TerminatedDisconnect | Merged/unityserver.py:50-53 | a DISCONNECT line after a line ended by "\n", "\r\n" or a lone "\r" ends the loop with true, after only the first line's effects |
| UnityServer.DispatchTwoLines | Merged/unityserver.py:51-72 | two lines, neither "DISCONNECT", return false with the first line's effects followed by the second's |
| UnityServer.MoveThenSay | Merged/unityserver.py:50-72 | a MOVE line then a SAY line give the MOVE's console line (with the soft-space rule after the limb) and "MOVE", then the SAY's console line and text, in that order |
| ToImage.ToRgbRows | to_image.py:8-18 | the loop succeeds exactly when the input has at least 49854 bytes and then builds `Image` of the input; otherwise it raises IndexError |
| ToImage.RowPrefixIsSlice | to_image.py:12-17 | the first `n` pixels of a row are the `3n` consecutive bytes from the row's start |
| ToImage.ImagePrefixRows | to_image.py:9-18 | after `n` rows there are `n` rows, in ascending order, and row `j` is the bytes `42j..42j+42` |
| ToImage.ImageEntry | to_image.py:9-17 | there are 1187 rows of 42 values; value `m` of row `j` is the byte at `42j+m`, and every value is in 0..255 |
| ToImage.ImagePrefixFlatten | to_image.py:9-18 | the first `n` rows laid end to end are the first `42n` bytes |
| ToImage.ImageFlatten | to_image.py:9-18 | all rows laid end to end are the first 49854 bytes of the input, in order |
| ToImage.ImageReadsOnlyPrefix | to_image.py:9-17 | inputs that agree on their first 49854 bytes give the same rows |

## Left out

- The main loop and start-up (`Merged/unityserver.py:77-109`) are left out: the blocking `accept` and `recv`, `time.sleep` and the `print` calls there. They are socket I/O and timing. An empty receive skips `processCommands` and continues the loop (lines 95-97). `UnityServer.EmptyBuffer` shows that dispatching an empty buffer would have no effect anyway.
- The classes `PythonToNao` and `PythonToUnity` (`Merged/unityserver.py:7-45`) are left out. They are thin wrappers over `naoqi.ALProxy` and sockets. This includes `close()`, which tests for an attribute `_conn` that is never set and so never closes the connection. That is socket teardown, not dispatch logic.
- The robot's `say` is not called. Each call becomes a `Speak` entry in the effect trace. A `say` call that fails with a robot-side exception is not modelled.
- The MOVE motion (`setPosition`) is only a commented-out FIXME in the source (`Merged/unityserver.py:63-67`). No float parsing and no coordinate transform are modelled, because the code has none.
- `camera.py` and `movement_test.py` are left out. They only call the robot's camera and motion APIs.
- The file reading and the `png.Writer` output in `to_image.py` (lines 1-5 and 20-25) are left out, as are the debug `print`s at lines 5 and 14. They are file I/O and a foreign library. The loop takes the file's contents as a parameter.
- A `Log` line is the text `print` writes without its final "\n". Only `print` statements whose items are all strings are modelled, and no soft space is pending when one starts, because every `print` in the program ends its line. Whitespace is C's `isspace` in the default locale.
- Characters are Dafny `char`s standing for the bytes of a Python 2 `str`. There is no encoding or decoding. `splitlines` is modelled for byte strings, where only `\n` and `\r` break lines, and not for Python 3 or unicode strings, where more characters do.
- UnityServer.Spoken: it only extracts the `say` payloads from an effect trace. Its own contract states only a length bound. What is said is stated by `MoveSpeech`, `SaySpeech`, `DisconnectedRobotIsSilent` and the `Dispatch` lemmas.
