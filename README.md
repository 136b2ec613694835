# macspoof: a Dafny model of the MAC-address handling

`macspoof` reads and changes the hardware (MAC) address of a Linux network
interface. This project models the part of `main.cpp` that is logic rather
than kernel calls:

- the MAC text parser: `to_lower`, `hex_to_char`, `string_to_mac`;
- the MAC text formatter: `mac_to_string`;
- the copy loops into and out of the interface descriptor: `set_mac_address`
  and `get_mac`;
- the command line: `parse_args`, with its `strncmp` matching;
- the flag precedence chain in `main`, and the branches it selects.

Modules, one per concern:

- `Types` (types.dfy): `Byte`, the six-byte `Mac`, and `Option` for a
  pointer that may be NULL.
- `MacText` (mac_text.dfy): `ToLower` is an in-place method over a char array.
  `StringToMac` is the index-and-counter loop, proved against the function
  `DecodeMac`. `MacToString` is the `%2x:` formatter. Lemmas cover the case
  rules, the decoding of well-formed text, the buffer overrun, and the
  round trip.
- `Cli` (cli.dfy): `ParseArgs` is the `while` loop over `argv`, proved
  against the function `ParseSpec`. `Dispatch` is the `if / else` chain of
  `main`. Lemmas cover flag matching, the last `-i` winning, the default
  interface, a bad MAC argument ending the parse, and the precedence.
- `Device` (device.dfy): the class `Interface` stands for the `info`
  descriptor, with `sa_data` as a 14-byte array. `SetMacAddress` and `GetMac`
  are its copy loops. `Execute` runs the selected branch (lines 218-257), with
  the kernel's answers given as parameters.

Behaviour of `main.cpp` that the model keeps as written:

- `string_to_mac` checks only the length. It does not check the colon
  positions or that the characters are hex digits.
- `mac_to_string` always yields 17 characters. A byte below 0x10 becomes a
  space followed by one digit; the text never gets shorter.
- With `-x` or `-p`, a failing permanent-address query does not lead to a
  clean failure exit. The NULL result is read, the process crashes, and the
  interface is not brought back up.
- With `-p` and a MAC argument, the MAC is parsed but never applied.

## Model

| member | source | states |
|---|---|---|
| `MacText.ToLower` | main.cpp:86-92 | the buffer is replaced, in place, by its lower-case form `Lower` of the old contents |
| `MacText.Lower` | main.cpp:86-92 | same length; each character is `LowerChar` of the original (only 'A'..'Z' move) |
| `MacText.LowerChangesOnlyUppercase` | main.cpp:88-91 | a character changes exactly when it is in 'A'..'Z', and then it moves up by 32; the length is unchanged |
| `MacText.LowerIdempotent` | main.cpp:86-92 | lower-casing twice equals lower-casing once |
| `MacText.HexToChar` | main.cpp:94-98 | on '0'-'9' and 'a'-'f' it inverts the hex digit printer; any other character gives `(c - 'a' + 10) mod 256` |
| `MacText.HexToCharOfDigit` | main.cpp:94-98 | `hex_to_char` of the printed digit of d is d, for every d below 16 |
| `MacText.HexToCharOfLowered` | main.cpp:94-98 | after lower-casing, `hex_to_char` gives the value of a hex digit of either case |
| `MacText.Pair` | main.cpp:113 | the byte stored for a pair is `hex_to_char(hi) * 16 + hex_to_char(lo)` truncated to a byte; for two lower-case hex digits nothing is lost: its high nibble is `hex_to_char(hi)` and its low nibble `hex_to_char(lo)` |
| `MacText.CharAt` | main.cpp:110-113 | the read `s[i + 1]` gives the character at that position, and on a C string it gives the terminator exactly at and past `strlen`, as the read of `s[17]` does |
| `MacText.ScanFrom` | main.cpp:108-116 | the loop writes at most one byte per two remaining positions, and nothing past the end |
| `MacText.DecodeMac` | main.cpp:100-119 | the failure result (-1) comes exactly when the length is not 17; otherwise at most nine bytes are written |
| `MacText.StringToMac` | main.cpp:100-119 | returns -1 exactly when the length is not 17, and then leaves `s` and `mac` untouched; otherwise returns 0, lower-cases `s` in place, and writes the decoded bytes at the front of `mac`, leaving the rest as it was |
| `MacText.AlignedPairs` | main.cpp:108-116 | the bytes of the pairs at 3k and 3k+1 from pair j on: 6-j of them, the k-th decoded from characters 3(j+k) and 3(j+k)+1 |
| `MacText.ScanAligned` | main.cpp:108-116 | on text with colons exactly at 2, 5, 8, 11 and 14, the loop from pair j on writes exactly `AlignedPairs`, so from the start six bytes, the k-th from characters 3k and 3k+1 |
| `MacText.StringToMacWellFormed` | main.cpp:94-118 | for `xx:xx:xx:xx:xx:xx` in either case, six bytes are written and `mac[k] == 16*hex(s[3k]) + hex(s[3k+1])` |
| `MacText.ColonFreeTextOverruns` | main.cpp:100-116 | any 17-character text without colons passes the length check and decodes to nine bytes, more than the six-byte buffer holds |
| `MacText.FormatBytes` | main.cpp:124 | the joined conversions have length 3n-1, ':' at every position 3k+2, and each byte's two characters at 3k and 3k+1 |
| `MacText.MacToString` | main.cpp:121-128 | always 17 characters, ':' at 2, 5, 8, 11 and 14, each pair the lower-case hex of its byte; a byte below 0x10 is a space followed by one digit |
| `MacText.FormatThenDecode` | main.cpp:94-128 | parsing the printed text gives back each byte of at least 0x10, and gives b + 0x90 for a byte b below 0x10 |
| `MacText.RoundTripIffHighBytes` | main.cpp:100-128 | `string_to_mac(mac_to_string(m))` recovers m if and only if every byte of m is at least 0x10 |
| `MacText.LowByteCounterexample` | main.cpp:121-128 | 00:11:22:33:44:0a is printed with spaces at positions 0 and 15, and reads back as 90:11:22:33:44:9a |
| `MacText.MacToCanonical` | main.cpp:124 | the zero-padded form: 17 characters, colons in place, each pair is both hex digits of its byte |
| `MacText.ParseMac` | main.cpp:100-119 | strict parsing: accepts exactly the well-formed texts, and then agrees with `string_to_mac` on six bytes |
| `MacText.CanonicalRoundTrip` | main.cpp:100-128 | the zero-padded text of any address is well formed and parses back to that address |
| `MacText.CanonicalIsWellFormed` | main.cpp:121-128 | the zero-padded text of any address is `xx:xx:xx:xx:xx:xx` |
| `MacText.CanonicalDecodes` | main.cpp:100-128 | `string_to_mac` reads the zero-padded text of any address back as that address |
| `MacText.CanonicalOfParse` | main.cpp:100-128 | parsing well-formed text and printing it zero-padded gives the lower-case form of the text |
| `Cli.StrNCmpEq` | main.cpp:160-168 | `strncmp(a, b, n) == 0`: when it holds on two C strings they agree on every compared position, and one ends before n exactly when the other does |
| `Cli.StrNCmpPrefix` | main.cpp:160-168 | `strncmp(a, b, n) == 0` with n at most the length of b means a starts with the first n characters of b |
| `Cli.StrNCmpWhole` | main.cpp:162-166 | `strncmp(a, b, n) == 0` with n beyond the end of b means a equals b |
| `Cli.Classify` | main.cpp:160-182 | the `strncmp` tests in source order pick the branch an argument takes; an argument is taken for a flag only when it starts with '-' followed by one of h, p, r, x, i |
| `Cli.ClassifyRules` | main.cpp:160-182 | tried in the order -h, -p, -r, -x, -i: "-h", "-r" and "-i" match as prefixes, "-p" and "-x" only as the whole argument, and anything else is MAC text |
| `Cli.ScanArgs` | main.cpp:158-185 | the loop from argument i: it ends with the globals set or with one of the two failure exits, and nothing in it clears a flag once set or drops a stored MAC |
| `Cli.Finish` | main.cpp:187-194 | the two steps after the loop: an interface is always set, a given one is kept, `print_current_mac` is set when `argc == 1`, and no other global changes |
| `Cli.ParseArgs` | main.cpp:155-195 | the loop over `argv` yields exactly the outcome of the specification `ParseSpec` |
| `Cli.ParsedOptions` | main.cpp:187-194 | after a successful parse, `print_current_mac` is set if and only if `argc == 1`, an interface is always set, and the MAC holds at most six bytes |
| `Cli.NoArgumentsPrintsCurrent` | main.cpp:187-194 | with no arguments only `print_current_mac` is set, on the interface "enp2s0" |
| `Cli.ScanAppend` | main.cpp:158-185 | a scan that consumes the arguments exactly continues in the same way when more arguments follow |
| `Cli.LastInterfaceWins` | main.cpp:168-175 | appending `-i name` to a command line that parses keeps every option and replaces the interface with name |
| `Cli.MissingInterfaceName` | main.cpp:168-173 | a trailing `-i` with no value ends the program with a failure |
| `Cli.LastMacWins` | main.cpp:176-181 | a trailing MAC argument that is not 17 characters ends with a failure; one that fits replaces the stored MAC |
| `Cli.ScanKeepsInterface` | main.cpp:158-185 | only the `-i` branch sets `interface`: a scan over arguments none of which is taken for `-i` leaves it as it was |
| `Cli.DefaultInterface` | main.cpp:191-194 | a command line that parses and has no `-i` argument uses "enp2s0", whatever its other arguments |
| `Cli.InterfaceKept` | main.cpp:168-175 | arguments after the last `-i name` leave the interface alone, so with `-i a -i b -r` the interface is b |
| `Cli.ScanMacFailureIsFinal` | main.cpp:176-181 | once a MAC argument fails to convert, the loop exits with failure whatever arguments follow |
| `Cli.MacFailureIsFinal` | main.cpp:176-181 | a command line that fails on a MAC argument fails the same way with any arguments appended |
| `Cli.WellFormedMacArgument` | main.cpp:176-181 | a well-formed address given as an argument is stored as the six bytes the strict parse gives |
| `Cli.Dispatch` | main.cpp:218-255 | the `if / else` chain: help wins whenever it is set, and the explicit branch, carrying the `mac` global, runs exactly when no flag is set |
| `Cli.DispatchPrecedence` | main.cpp:218-255 | help > print-permanent > print-current > reset > random > explicit, each branch exactly when the flags above it are off; the explicit branch carries the `mac` global |
| `Cli.ExplicitAddressScenario` | main.cpp:155-195 | `-i name xx:xx:xx:xx:xx:xx` parses to that interface and that address, and selects the explicit branch with it |
| `Cli.PermanentBeatsExplicitAddress` | main.cpp:228-230 | with `-p` and an address, the address is parsed and stored, but the print-permanent branch runs |
| `Cli.InterfaceOnlyReachesExplicitWithNull` | main.cpp:248-255 | with only `-i name`, the explicit branch runs with a NULL address |
| `Device.Interface.constructor` | main.cpp:211-216 | the descriptor holds the 14 `sa_data` bytes the hardware-address query reported |
| `Device.Interface.SetMacAddress` | main.cpp:47-60 | overwrites exactly `sa_data[0..5]` with the new address and leaves the other bytes alone, even when the ioctl fails; returns 0 on success and -1 on failure |
| `Device.Interface.GetMac` | main.cpp:62-70 | returns exactly `sa_data[0..5]` |
| `Device.SetThenGet` | main.cpp:47-70 | `set_mac_address` followed by `get_mac` reads back exactly the address just set, whether or not the ioctl succeeded |
| `Device.ReadsNull` | main.cpp:228-254 | the NULL reads: help, print-current and random never read NULL; the explicit branch reads NULL exactly when no MAC was given; with a permanent address available, only that branch can |
| `Device.Target` | main.cpp:233-254 | the address a changing branch writes: the permanent one for reset, the random one for `-r`, or for the explicit branch the parsed bytes followed by the bytes `malloc` returned; None exactly where nothing is written |
| `Device.SetAndReport` | main.cpp:234-254 | writes the target, prints it on success, and exits with failure on an ioctl failure, bringing the interface up either way |
| `Device.Execute` | main.cpp:218-257 | a crash happens exactly when a NULL address is read, and then the interface is not brought back up; otherwise it is brought up. Failure comes exactly when a write is attempted and the ioctl fails. The descriptor holds the target afterwards, or is unchanged when nothing is written. The addresses printed are given per branch |

## Left out

- Kernel calls are not modelled: `socket`, the SIOCGIFHWADDR, SIOCSIFHWADDR and SIOCETHTOOL ioctls, and the ethtool request set up in `get_permanent_mac`. Their outcomes are parameters: `reported` for the constructor, `ioctlOk`/`setOk` for the set, and `permanent` for the permanent-address query.
- The socket and bind failure exits (main.cpp:205-216) run before the modelled branches and are not modelled.
- `iface_down` and `iface_up` run a shell command. Only whether the interface is brought back up is kept, as the `broughtUp` result of `Execute`.
- `get_random_mac` uses `srand(time(NULL))` and `rand()`. Its result is the `randomMac` parameter.
- Printed text is not modelled: `printf`, `perror` and the help text. Only the MAC strings passed to `printf` are kept, as `shown`.
- Memory management is not modelled: `malloc`, `free` and the leaks. MAC values are six-byte sequences, and the globals are the `Options` record. The indeterminate bytes of a fresh `malloc` are the `heap` parameter.
- `strcpy` of the interface name into the fixed-size `ifr_name` (main.cpp:211) can overflow. It is outside the modelled code.
- One Dafny `char` stands for one byte of a C string: `argv` and the MAC text are given byte by byte, as characters below 256. Non-ASCII text is outside the model unless it is given as its bytes, because `strlen` counts bytes and not code points (the 16-letter text "aa:bb:cc:dd:ee:é" is 17 bytes in UTF-8). On byte-valued characters, `hex_to_char` wrapping its result modulo 256 matches C.
- `MacText.StringToMac`: requires that the scan writes at most six bytes. The source writes past its six-byte buffer otherwise, which an array model cannot express. `ParseSpec` and `ParseArgs` report that run as `MacOverrun` instead.
- `Cli.ParseArgs`: decodes a MAC argument with `DecodeMac`, the function `StringToMac` is proved against, rather than calling the method on a copy of the argument. The in-place lower-casing of `argv[i]` is not visible, because nothing reads `argv[i]` again.
- `Device.Execute`: assumes the second permanent-address query of the reset branch (main.cpp:239) answers like the first. A first success followed by a failure would crash after the address was set.

## Findings

| source | as written | input that shows it | evidently intended | confidence | as-written member | corrected member |
|---|---|---|---|---|---|---|
| main.cpp:124 | `%2x` pads a byte below 0x10 with a space. `string_to_mac` decodes the space as 201, so such a byte reads back as itself plus 0x90 | 00:11:22:33:44:0a, printed as " 0:11:22:33:44: a" and read back as 90:11:22:33:44:9a | `%02x`, so that every printed address parses back to itself | not executed; high | `MacText.LowByteCounterexample` | `MacText.CanonicalRoundTrip` |
| main.cpp:100-116 | only the length is checked. Seventeen characters without colons make the loop write nine bytes into the six-byte `mac` buffer | "aaaaaaaaaaaaaaaaa" | reject any text that is not `xx:xx:xx:xx:xx:xx` | not executed; high | `MacText.ColonFreeTextOverruns` | `MacText.ParseMac` |

The program model (`Cli`, `Device`) keeps the as-written members, because it
describes the program as it runs. The corrected members sit beside them, with
their properties proved.
