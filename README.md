# WoL — a verified model of the `wol` wake-up script

`wol` is a small Python 3 script that wakes machines on the local network
with Wake-on-LAN. It takes machine names or MAC strings on the command line.
Names are looked up in a fixed table (`known_computers`). Every MAC string is
handed to `wake_on_lan`. That function parses `00:11:22:33:44:55` into six
octets, builds the 102-octet "magic packet" (six `0xFF` octets, then the
address sixteen times), and sends it by UDP to each configured broadcast
address on port 9.

The model has seven modules, one per concern:

- `Wrappers` (`wrappers.dfy`): `Option` and `Result`.
- `Text` (`text.dfy`): `str.split(':')`, the one string method `wake_on_lan` calls. Also `':'.join` and ASCII lower-casing, which the script does not use; they are there to state that splitting round-trips and that the digits are read case-insensitively.
- `Hex` (`hex.dfy`): `int(field, 16)` and the `pack('B')` octet range.
- `MacAddress` (`mac_address.dfy`): the address parse of `wake_on_lan`. It
  keeps the error that ends it: a wrong field count (a message, then a
  normal return), an invalid literal (`ValueError`) or an out-of-range value
  (`struct.error`).
- `MagicPacket` (`magic_packet.dfy`): the packet layout and the receiver's
  view of it. It also models line 65 as written (see Findings).
- `Wol` (`wol.dfy`): the configuration, `wake_on_lan` and the module-level
  loop over `argv`, all as methods.
  - Every datagram goes into a trace of `(address, port, payload)` values.
  - `Dispatch` is the decision procedure over the arguments.
  - `Process` specifies the loop. It follows the arguments in order and ends
    at the first unknown name, the first empty argument, or the first
    `wake_on_lan` call that raises.
- `Scenarios` (`scenarios.dfy`): concrete runs on the script's own table
  and on the address forms in its usage text.

Three behaviours of the code shape the model:

- The code splits on `:` only. `00-11-22-33-44-55` and `001122334455` are
  one field each and are refused with the field-count message.
- All six `int` calls run before `pack`. So an invalid literal in any field
  is reported ahead of an out-of-range value in an earlier field.
- A field-count refusal returns normally, and the loop goes on.
  `ValueError` and `struct.error` are not caught, so they end the script.
  So does `i[0]` on an empty argument (`IndexError`). An `OSError` from the
  socket calls would too; the model does not include it (see Left out).

## Model

| member | source | states |
|---|---|---|
| Text.Split | wol.py:50 | `split(':')` yields one more field than there are separators, and no field contains the separator |
| Text.JoinSplit | wol.py:50 | joining the fields of a split with the separator gives back the original string |
| Text.SplitJoin | wol.py:50 | splitting a join of separator-free fields gives back exactly those fields |
| Text.SplitLower | wol.py:50 | for a separator that is not a letter, the fields of the lowered string are the lowered fields, same count |
| Hex.ParseHex | wol.py:56-61 | `int(field, 16)` has a value exactly when the field is non-empty and all hexadecimal digits; otherwise it raises |
| Hex.HexValue | wol.py:56-61 | the value `int(s, 16)` returns for `n` hexadecimal digits is below `16^n` |
| Hex.ParseByteToHex | wol.py:56-61 | reading the two-digit spelling of any octet gives back that octet |
| Hex.ShortValueFits | wol.py:56-61 | a field of at most two hex digits always has a value `pack('B')` accepts |
| Hex.LeadingZero | wol.py:56-61 | for any non-empty field, a leading `0` changes neither whether it parses nor its value |
| Hex.ParseHexLower | wol.py:56-61 | the case of the digits never changes the value (`DF` and `df` agree) |
| MacAddress.ParseInts | wol.py:56-61 | the six `int` calls in order: either all fields have values, pointwise, or the index of the first field that raises, all fields before it being valid |
| MacAddress.PackBytes | wol.py:56 | `pack('BBBBBB', ...)`: either every value is copied as an octet pointwise, or the index of the first value above 255, all before it fitting |
| MacAddress.ParseMac | wol.py:50-61 | field-count refusal exactly when there are not six fields, with the count; acceptance exactly when all six fields are literals below 256; octet k is the value of field k; an invalid literal is the first field without a value; an out-of-range error names the first value above 255, and only when all six are literals |
| MacAddress.ParseMacAccepts | wol.py:50-61 | conversely, six fields whose values are the octets of `a` are accepted as `a` |
| MacAddress.ParseMacInvalid | wol.py:56-61 | conversely, with six fields, the first field without a value is the one reported |
| MacAddress.ParseMacOutOfRange | wol.py:56-61 | conversely, six literals whose first value above 255 is at `i` give the out-of-range error for `i` |
| MacAddress.SameValuesSameParse | wol.py:50-61 | two strings with as many fields, whose fields read alike one by one, get the same outcome |
| MacAddress.Raises | wol.py:50-61 | `wake_on_lan` raises only on a string of exactly six fields: a wrong field count always returns |
| MacAddress.ParseFormat | wol.py:53 | the spelling `00:11:22:33:44:55` of any address parses back to that address |
| MacAddress.FormatInjective | wol.py:53 | different addresses have different canonical spellings |
| MacAddress.ParseMacLower | wol.py:56-61 | lower-casing a MAC string never changes the parse outcome, acceptance or error |
| MacAddress.NoColonRejected | wol.py:50-54 | a string without `:` is one field and gets the field-count refusal, as the hyphenated and bare forms do |
| MagicPacket.Repeat | wol.py:65 | `s * n` has `n` times the length of `s` |
| MagicPacket.RepeatAt | wol.py:65 | element `k` of copy `j` in `s * n` is element `k` of `s` |
| MagicPacket.HeaderIsRepeat | wol.py:65 | `b'\xff' * 6` is the six-octet `0xFF` header |
| MagicPacket.Packet | wol.py:65 | the packet is 102 octets and starts with the six-octet `0xFF` header |
| MagicPacket.PacketLayout | wol.py:65 | the packet is 6 + 6·16 = 102 octets, begins with six `0xFF`, has octet `6+i` equal to address octet `i % 6`, and carries the address at 6..12 |
| MagicPacket.PacketUnique | wol.py:65 | a sequence has that layout for `hwa` exactly when it is the packet for `hwa` |
| MagicPacket.RecognisePacket | wol.py:65 | a receiver recognises every packet built here and reads back its address |
| MagicPacket.RecognisedIsPacket | wol.py:65 | anything a receiver recognises is exactly the packet for the address it reads |
| MagicPacket.PacketInjective | wol.py:65 | different addresses give different packets |
| MagicPacket.PyRepeat | wol.py:65 | Python repetition keeps the kind of sequence, text or bytes |
| MagicPacket.PyConcat | wol.py:65 | Python `+` succeeds exactly when both operands are the same kind of sequence |
| MagicPacket.MessageAsWritten | wol.py:65 | line 65 as written, text `'\xff' * 6` plus the bytes `hwa * 16`, is a `TypeError` for every address |
| MagicPacket.MessageAsWrittenRaises | wol.py:65 | for every address line 65 as written raises `TypeError` under Python 3, while the bytes reading gives the packet |
| MagicPacket.MessageIntended | wol.py:65 | the bytes reading `b'\xff' * 6 + hwa * 16` of line 65 succeeds and gives 102 octets |
| MagicPacket.MessageIntendedIsPacket | wol.py:65 | the bytes reading of line 65 is the magic packet, with its layout |
| Wol.Broadcast | wol.py:24 | the two broadcast destinations `192.168.1.255` and `192.168.0.255`, in this order |
| Wol.WolPort | wol.py:25 | UDP port 9 |
| Wol.KnownComputers | wol.py:26-30 | the four names and their MAC strings, spelled exactly as in the table |
| Wol.TraceOfSnoc | wol.py:97-105 | the datagrams of one more `wake_on_lan` call come after those of the earlier calls |
| Wol.WakeTrace | wol.py:69-72 | one `wake_on_lan` call sends one datagram per broadcast address, in list order and to the configured port, when the address parses, and none otherwise |
| Wol.TraceOf | wol.py:69-72 | every datagram of a sequence of calls goes to a configured broadcast address on the configured port |
| Wol.SendToAll | wol.py:71-72 | one datagram per broadcast address, in list order, each to the configured port with the same payload |
| Wol.WakeOnLan | wol.py:47-73 | sends exactly when the parse succeeds; a field-count refusal returns normally and sends nothing; `ValueError`/`struct.error` are reported as failure exactly when the parse raises; the trace is one datagram per destination carrying the packet |
| Wol.TraceWellFormed | wol.py:65-72 | every datagram of any sequence of calls goes to the configured port and a configured address, and carries a recognisable magic packet |
| Wol.StepOf | wol.py:98-108 | an argument is skipped exactly when it starts with `/`; it stops exactly when it is empty (`EmptyArgument`) or has no `:` and is not a known name (`UnknownComputer` of itself); otherwise `wake_on_lan` is called on the argument itself when it contains `:`, and on its table entry when it does not |
| Wol.Dispatch | wol.py:97-108 | dispatch ends at the end of the arguments, on an unknown name or on an empty argument, and hands on at most one MAC string per argument |
| Wol.DispatchFinished | wol.py:97-108 | dispatch reaches the end exactly when no argument stops it |
| Wol.DispatchAppend | wol.py:97-108 | dispatching two lists in a row is dispatching the first and, only if it finished, the second |
| Wol.DispatchOne | wol.py:98-108 | dispatch of a single argument is that argument's step |
| Wol.DispatchStopsAt | wol.py:106-108 | the first stopping argument decides the halt, and nothing after it is handed on |
| Wol.DispatchUnfold | wol.py:97-108 | dispatching from `i` on is the step for `args[i]` followed by dispatching from `i+1` on |
| Wol.DispatchWakesAt | wol.py:99-105 | a waking argument before any stop is handed on after everything before it and ahead of everything after it |
| Wol.DispatchOrigins | wol.py:99-105 | every MAC string handed on comes from some argument, as is or through the table |
| Wol.DispatchSkipsPath | wol.py:98 | an argument starting with `/` can be removed from `argv` without changing what is handed on or how processing ends |
| Wol.HandleArgument | wol.py:98-108 | the loop body for one argument takes exactly the argument's step; only a wake sends, and it sends what `wake_on_lan` sends; it ends the loop on a stop, or when `wake_on_lan` raises, with that error |
| Wol.CallsMade | wol.py:97-105 | the `wake_on_lan` calls actually made are a prefix of the requests |
| Wol.CallsMadeSpec | wol.py:97-105 | the calls made are all the requests, or they end with one that raises |
| Wol.CallsMadeReturn | wol.py:97-105 | every call made before the last one returned |
| Wol.CallsMadeAll | wol.py:97-105 | when no request raises, every request is made |
| Wol.Process | wol.py:97-108 | processing makes at most one `wake_on_lan` call per argument and never ends in the `len(argv) == 1` branch |
| Wol.ProcessDispatch | wol.py:97-108 | processing the arguments calls `wake_on_lan` on exactly the requests up to the first that raises; the run crashes on that one, and otherwise ends as dispatch does |
| Wol.ProcessCrashesOnLast | wol.py:97-108 | a run crashes exactly when the last `wake_on_lan` call made raises, and then on that address with its error; every earlier call returned |
| Wol.ProcessClean | wol.py:97-108 | with no stopping argument and no raising address, every request is called and the run finishes |
| Wol.CallsAfterWake | wol.py:101-105 | one more request in front is called first, and it is the only call when it raises |
| Wol.HaltAfterWake | wol.py:101-105 | one more request in front decides the end of the run when it raises, and changes nothing otherwise |
| Wol.ProcessUnfold | wol.py:97-108 | processing from `i` on is the step for `args[i]` followed by processing from `i+1` on |
| Wol.ArgumentTurn | wol.py:98-108 | one turn of the loop keeps the trace equal to the datagrams of the calls made, and either moves on or ends with what processing predicts |
| Wol.TurnAdvances | wol.py:98-108 | the outcome of the body for `args[i]` moves processing on by one argument, or ends it as predicted |
| Wol.ProcessArguments | wol.py:97-108 | the loop makes exactly the `wake_on_lan` calls `Process` predicts and ends the same way; the trace is the datagrams of the calls made, in order |
| Wol.Run | wol.py:92-108 | with only the script in `argv` no call is made and nothing sent; otherwise the calls made are the requests up to the first that raises, the halt follows from that, and the trace is their datagrams |
| Scenarios.CanonicalAccepted | wol.py:53 | `00:11:22:33:44:55` parses to the octets 00 11 22 33 44 55 |
| Scenarios.FiveFieldsRejected | wol.py:50-54 | five fields get the field-count refusal with count 5 |
| Scenarios.HyphenatedRejected | wol.py:50-54 | `00-11-22-33-44-55` and `001122334455` get the field-count refusal with count 1 |
| Scenarios.BadDigitsRaise | wol.py:56-61 | a field `gg` makes `int` raise for field 0 |
| Scenarios.EmptyFieldRaises | wol.py:56-61 | adjacent colons give an empty field that makes `int` raise |
| Scenarios.WideFieldRaises | wol.py:56-61 | a field `100` has value 256, which `pack` refuses |
| Scenarios.LiteralCheckedBeforeRange | wol.py:56-61 | an invalid last field is reported although the first field is already out of range |
| Scenarios.MercuryAccepted | wol.py:27 | the upper-case `mercury` entry parses to 00 1C 55 35 12 BF |
| Scenarios.VenusAccepted | wol.py:28 | the `venus` entry parses to 00 1D 39 55 5C DF |
| Scenarios.EarthAccepted | wol.py:29 | the `earth` entry parses to 00 10 60 15 97 FB |
| Scenarios.MarsAccepted | wol.py:30 | the mixed-case `mars` entry parses to 00 10 DC 34 B2 87 |
| Scenarios.KnownComputersAccepted | wol.py:26-30 | every entry of the table is an address `wake_on_lan` accepts |
| Scenarios.DispatchMixed | wol.py:97-108 | path skipped, name and MAC string handed on in order, and processing stopped at `pluto` before `venus` |
| Scenarios.RelativeScriptPathStops | wol.py:97-108 | a script path not starting with `/` is taken for an unknown computer |
| Scenarios.VerboseFlagStops | wol.py:97-108 | a `-v` flag that reaches the loop is taken for an unknown computer |
| Scenarios.DefaultTrace | wol.py:24-25 | with the script's configuration an accepted address gives two datagrams, to 192.168.1.255 and 192.168.0.255, on port 9 |
| Scenarios.RefusedThenRaised | wol.py:97-105 | a refused address lets the loop go on, and a raising one ends the run with its error, whatever follows |

## Left out

- Sockets (wol.py:69-70, 73): creating the socket, `SO_BROADCAST` and `close` are operating-system I/O. Each `sendto` is one `Datagram` in a trace; delivery is not modelled. An `OSError` raised by `socket.socket` or `sendto` is not modelled: the trace assumes every send returns.
- `parse_arguments` (wol.py:76-90) is left out; `argparse` is a library wrapper. With it in place, a run with no target or with `--version` exits inside `argparse` before line 92, so the `NoComputerGiven` branch only describes lines 92-94 on their own. The `-v` flag is not removed from `argv` by `argparse`, so the loop still sees it (`Scenarios.VerboseFlagStops`).
- Console messages (wol.py:52-53, 93-94, 107, 110-114) carry no logic; a message is represented only by the outcome it goes with.
- `quit()` and uncaught exceptions are represented as `Halt` values; the exit status and the traceback are not modelled.
- Hex.ParseHex: models `int(s, 16)` only for non-empty strings of ASCII hex digits. Python also accepts surrounding whitespace, a sign, a `0x` prefix, underscores between digits and non-ASCII digits. The model reports such fields as invalid literals.
- MagicPacket.Packet: modelled as octets throughout, as the line evidently intends; the Python 3 `str` + `bytes` error of the line as written is kept in `MagicPacket.MessageAsWritten` (see Findings).
- Wol.WakeOnLan: sends the packet line 65 evidently intends; under Python 3 the line as written raises `TypeError` before any datagram, which `MagicPacket.MessageAsWrittenRaises` states instead.
- wol_server.py is not part of this model. It is a web front end, and it calls a `WakeOnLan` function that wol.py does not define.

## Findings

| source | as written | input that shows it | evidently intended | confidence | as-written member | corrected member |
|---|---|---|---|---|---|---|
| wol.py:65 | `'\xff' * 6 + hwa * 16` adds a `str` to the `bytes` from `pack`, which raises `TypeError` under Python 3, so no packet is ever sent | any accepted address, e.g. `00:11:22:33:44:55` | `b'\xff' * 6 + hwa * 16`, the 102-octet magic packet | high; not executed | MagicPacket.MessageAsWrittenRaises | MagicPacket.MessageIntendedIsPacket |
