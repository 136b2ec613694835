/** `parse_args` and the precedence chain of `main`: the command line becomes
    the program's option globals, and the globals select one action. */
module Cli {
  import opened Types
  import opened MacText

  /** The interface used when no `-i` is given. */
  const DefaultIface: seq<char> := "enp2s0"

  // ---------------------------------------------------------------------------
  // strncmp

  /** The character at the front of a C string (its terminator when empty). */
  function Head(a: seq<char>): char {
    if |a| == 0 then '\0' else a[0]
  }

  /** `strncmp(a, b, n) == 0`: the first n characters agree, or both strings
      end together before that. */
  function StrNCmpEq(a: seq<char>, b: seq<char>, n: nat): (r: bool)
    ensures r && NulFree(a) && NulFree(b) ==>
      forall j :: 0 <= j < n && j < |a| && j < |b| ==> a[j] == b[j]
    ensures r && 0 < n && NulFree(a) && NulFree(b) ==> (|a| < n <==> |b| < n)
    decreases n
  {
    n == 0 ||
    (Head(a) == Head(b) && (Head(a) == '\0' || StrNCmpEq(a[1..], b[1..], n - 1)))
  }

  /** With n no longer than b, `strncmp` tests whether a starts with b's first n characters. */
  lemma {:induction false} StrNCmpPrefix(a: seq<char>, b: seq<char>, n: nat)
    requires NulFree(a) && NulFree(b) && n <= |b|
    ensures StrNCmpEq(a, b, n) <==> n <= |a| && a[..n] == b[..n]
    decreases n
  {
    if n > 0 {
      assert Head(b) == b[0] != '\0';
      if |a| > 0 {
        StrNCmpPrefix(a[1..], b[1..], n - 1);
        if n <= |a| && a[..n] == b[..n] {
          assert a[0] == a[..n][0] == b[..n][0] == b[0];
          forall j | 0 <= j < n - 1
            ensures a[1..][j] == b[1..][j]
          {
            assert a[1..][j] == a[..n][j + 1] && b[1..][j] == b[..n][j + 1];
          }
          assert a[1..][..n - 1] == b[1..][..n - 1];
        }
        if StrNCmpEq(a, b, n) {
          forall j | 0 <= j < n
            ensures a[j] == b[j]
          {
            if 0 < j {
              assert a[j] == a[1..][..n - 1][j - 1] && b[j] == b[1..][..n - 1][j - 1];
            }
          }
          assert a[..n] == b[..n];
        }
      }
    }
  }

  /** With n beyond b's terminator, `strncmp` tests equality. */
  lemma {:induction false} StrNCmpWhole(a: seq<char>, b: seq<char>, n: nat)
    requires NulFree(a) && NulFree(b) && |b| < n
    ensures StrNCmpEq(a, b, n) <==> a == b
    decreases n
  {
    if |b| == 0 {
      assert Head(a) == '\0' <==> a == [];
    } else {
      assert Head(b) == b[0] != '\0';
      if |a| > 0 {
        StrNCmpWhole(a[1..], b[1..], n - 1);
        assert a == [a[0]] + a[1..];
        assert b == [b[0]] + b[1..];
      }
    }
  }

  // ---------------------------------------------------------------------------
  // Arguments

  /** Which branch of `parse_args` an argument takes. */
  datatype ArgKind = HelpFlag | PermFlag | RandomFlag | ResetFlag | IfaceFlag | MacArg

  /** The first test that matches, in the order of the source. */
  function Classify(a: seq<char>): (k: ArgKind)
    ensures k != MacArg ==> |a| >= 2 && a[0] == '-' && a[1] in "hprxi"
  {
    if StrNCmpEq(a, "-h", 2) then HelpFlag
    else if StrNCmpEq(a, "-p", 3) then PermFlag
    else if StrNCmpEq(a, "-r", 2) then RandomFlag
    else if StrNCmpEq(a, "-x", 7) then ResetFlag
    else if StrNCmpEq(a, "-i", 2) then IfaceFlag
    else MacArg
  }

  /** "-h", "-r" and "-i" match as prefixes; "-p" and "-x" only as the whole argument. */
  lemma ClassifyRules(a: seq<char>)
    requires NulFree(a)
    ensures Classify(a) == HelpFlag <==> |a| >= 2 && a[..2] == "-h"
    ensures Classify(a) == PermFlag <==> a == "-p"
    ensures Classify(a) == RandomFlag <==> |a| >= 2 && a[..2] == "-r"
    ensures Classify(a) == ResetFlag <==> a == "-x"
    ensures Classify(a) == IfaceFlag <==> |a| >= 2 && a[..2] == "-i"
  {
    StrNCmpPrefix(a, "-h", 2);
    StrNCmpWhole(a, "-p", 3);
    StrNCmpPrefix(a, "-r", 2);
    StrNCmpWhole(a, "-x", 7);
    StrNCmpPrefix(a, "-i", 2);
    if a == "-p" || a == "-x" {
      assert a[..2] == a;
    }
  }

  // ---------------------------------------------------------------------------
  // parse_args

  /** The globals `parse_args` sets: `help`, `print_perm_mac`,
      `print_current_mac`, `random_mac`, `reset_to_default`, `interface`
      (NULL until set) and `mac` (NULL until set; the bytes `string_to_mac`
      wrote into it). */
  datatype Options = Options(
    help: bool,
    printPerm: bool,
    printCurrent: bool,
    random: bool,
    reset: bool,
    iface: Option<seq<char>>,
    mac: Option<seq<Byte>>)

  /** The globals before `parse_args` runs. */
  const Unset := Options(false, false, false, false, false, None, None)

  /** How `parse_args` ends: with the globals set, or with `exit(EXIT_FAILURE)`
      because `-i` had no value or a MAC argument failed to parse. MacOverrun
      marks the run in which `string_to_mac` writes past the 6-byte buffer. */
  datatype Parse = Parsed(opts: Options) | NoInterfaceName | BadMacText | MacOverrun

  /** The `while` loop of `parse_args` from argument `i` with globals `o`.
      Nothing in the loop clears a flag or frees the `mac` buffer. */
  function ScanArgs(argv: seq<seq<char>>, i: nat, o: Options): (r: Parse)
    ensures r.Parsed? ==>
      (o.help ==> r.opts.help) && (o.printPerm ==> r.opts.printPerm) &&
      (o.random ==> r.opts.random) && (o.reset ==> r.opts.reset) &&
      (o.mac.Some? ==> r.opts.mac.Some?)
    decreases |argv| - i
  {
    if |argv| <= i then Parsed(o)
    else match Classify(argv[i])
      case HelpFlag => ScanArgs(argv, i + 1, o.(help := true))
      case PermFlag => ScanArgs(argv, i + 1, o.(printPerm := true))
      case RandomFlag => ScanArgs(argv, i + 1, o.(random := true))
      case ResetFlag => ScanArgs(argv, i + 1, o.(reset := true))
      case IfaceFlag =>
        if |argv| <= i + 1 then NoInterfaceName
        else ScanArgs(argv, i + 2, o.(iface := Some(argv[i + 1])))
      case MacArg =>
        match DecodeMac(argv[i])
        case None => BadMacText
        case Some(bytes) =>
          if |bytes| > 6 then MacOverrun
          else ScanArgs(argv, i + 1, o.(mac := Some(bytes)))
  }

  /** The two steps after the loop: `print_current_mac` when `argc == 1`, and
      the default interface when none was given. */
  function Finish(argc: nat, o: Options): (f: Options)
    ensures f.iface.Some? && (o.iface.Some? ==> f.iface == o.iface)
    ensures f.printCurrent <==> o.printCurrent || argc == 1
    ensures f.(printCurrent := o.printCurrent, iface := o.iface) == o
  {
    o.(printCurrent := o.printCurrent || argc == 1,
       iface := if o.iface.None? then Some(DefaultIface) else o.iface)
  }

  /** `parse_args(argc, argv)`, with `argv[0]` the program name. */
  function ParseSpec(argv: seq<seq<char>>): Parse {
    match ScanArgs(argv, 1, Unset)
    case Parsed(o) => Parsed(Finish(|argv|, o))
    case failure => failure
  }

  /** `parse_args`: a scan with a manual index over `argv`, setting globals. */
  method ParseArgs(argv: seq<seq<char>>) returns (r: Parse)
    ensures r == ParseSpec(argv)
  {
    var o := Unset;
    var i := 1;
    while i < |argv|
      invariant 1 <= i
      invariant ScanArgs(argv, i, o) == ScanArgs(argv, 1, Unset)
      decreases |argv| - i
    {
      var kind := Classify(argv[i]);
      if kind == HelpFlag {
        assert ScanArgs(argv, i, o) == ScanArgs(argv, i + 1, o.(help := true));
        o := o.(help := true);
      } else if kind == PermFlag {
        assert ScanArgs(argv, i, o) == ScanArgs(argv, i + 1, o.(printPerm := true));
        o := o.(printPerm := true);
      } else if kind == RandomFlag {
        assert ScanArgs(argv, i, o) == ScanArgs(argv, i + 1, o.(random := true));
        o := o.(random := true);
      } else if kind == ResetFlag {
        assert ScanArgs(argv, i, o) == ScanArgs(argv, i + 1, o.(reset := true));
        o := o.(reset := true);
      } else if kind == IfaceFlag {
        i := i + 1;
        if |argv| <= i {
          return NoInterfaceName;
        }
        o := o.(iface := Some(argv[i]));
      } else {
        var decoded := DecodeMac(argv[i]);
        if decoded.None? {
          return BadMacText;
        }
        if |decoded.value| > 6 {
          return MacOverrun;
        }
        o := o.(mac := decoded);
      }
      i := i + 1;
    }
    if |argv| == 1 {
      o := o.(printCurrent := true);
    }
    if o.iface.None? {
      o := o.(iface := Some(DefaultIface));
    }
    r := Parsed(o);
  }

  // ---------------------------------------------------------------------------
  // Facts about parse_args

  /** The loop never touches `print_current_mac`, never clears an interface,
      never stores more than six MAC bytes, and stops exactly at `argc`. */
  lemma {:induction false} ScanFacts(argv: seq<seq<char>>, i: nat, o: Options)
    requires ScanArgs(argv, i, o).Parsed?
    requires o.mac.Some? ==> |o.mac.value| <= 6
    ensures ScanArgs(argv, i, o).opts.printCurrent == o.printCurrent
    ensures o.iface.Some? ==> ScanArgs(argv, i, o).opts.iface.Some?
    ensures var m := ScanArgs(argv, i, o).opts.mac; m.Some? ==> |m.value| <= 6
    decreases |argv| - i
  {
    if i < |argv| {
      var kind := Classify(argv[i]);
      if kind == IfaceFlag {
        ScanFacts(argv, i + 2, o.(iface := Some(argv[i + 1])));
      } else {
        var o' :=
          if kind == HelpFlag then o.(help := true)
          else if kind == PermFlag then o.(printPerm := true)
          else if kind == RandomFlag then o.(random := true)
          else if kind == ResetFlag then o.(reset := true)
          else o.(mac := DecodeMac(argv[i]));
        assert ScanArgs(argv, i, o) == ScanArgs(argv, i + 1, o');
        ScanFacts(argv, i + 1, o');
      }
    }
  }

  /** `print_current_mac` is set exactly when there are no arguments, an
      interface is always chosen, and the MAC holds at most six bytes. */
  lemma ParsedOptions(argv: seq<seq<char>>)
    requires ParseSpec(argv).Parsed?
    ensures ParseSpec(argv).opts.printCurrent <==> |argv| == 1
    ensures ParseSpec(argv).opts.iface.Some?
    ensures var m := ParseSpec(argv).opts.mac; m.Some? ==> |m.value| <= 6
  {
    ScanFacts(argv, 1, Unset);
  }

  /** With no arguments the current address is printed on the default interface. */
  lemma NoArgumentsPrintsCurrent(prog: seq<char>)
    ensures ParseSpec([prog]) == Parsed(Unset.(printCurrent := true, iface := Some(DefaultIface)))
  {
  }

  /** A scan that consumes `argv` exactly continues the same way when more
      arguments follow. */
  lemma {:induction false} ScanAppend(argv: seq<seq<char>>, tail: seq<seq<char>>, i: nat, o: Options)
    requires i <= |argv|
    requires ScanArgs(argv, i, o).Parsed?
    ensures ScanArgs(argv + tail, i, o) == ScanArgs(argv + tail, |argv|, ScanArgs(argv, i, o).opts)
    decreases |argv| - i
  {
    if i < |argv| {
      assert (argv + tail)[i] == argv[i];
      match Classify(argv[i])
      case HelpFlag => ScanAppend(argv, tail, i + 1, o.(help := true));
      case PermFlag => ScanAppend(argv, tail, i + 1, o.(printPerm := true));
      case RandomFlag => ScanAppend(argv, tail, i + 1, o.(random := true));
      case ResetFlag => ScanAppend(argv, tail, i + 1, o.(reset := true));
      case IfaceFlag =>
        assert (argv + tail)[i + 1] == argv[i + 1];
        ScanAppend(argv, tail, i + 2, o.(iface := Some(argv[i + 1])));
      case MacArg => ScanAppend(argv, tail, i + 1, o.(mac := DecodeMac(argv[i])));
    }
  }

  /** The last `-i` wins: appending `-i name` to a command line that parses
      keeps every option and replaces the interface. */
  lemma LastInterfaceWins(argv: seq<seq<char>>, name: seq<char>)
    requires |argv| >= 1 && ParseSpec(argv).Parsed?
    ensures ParseSpec(argv + ["-i", name])
         == Parsed(ParseSpec(argv).opts.(iface := Some(name), printCurrent := false))
  {
    var o := ScanArgs(argv, 1, Unset).opts;
    ScanAppend(argv, ["-i", name], 1, Unset);
    ScanFacts(argv, 1, Unset);
    var full := argv + ["-i", name];
    assert full[|argv|] == "-i" && full[|argv| + 1] == name;
    assert Classify("-i") == IfaceFlag;
    assert ScanArgs(full, |argv|, o) == ScanArgs(full, |argv| + 2, o.(iface := Some(name)));
  }

  /** A trailing `-i` without a value ends the program with a failure. */
  lemma MissingInterfaceName(argv: seq<seq<char>>)
    requires |argv| >= 1 && ParseSpec(argv).Parsed?
    ensures ParseSpec(argv + ["-i"]) == NoInterfaceName
  {
    ScanAppend(argv, ["-i"], 1, Unset);
    assert (argv + ["-i"])[|argv|] == "-i";
    assert Classify("-i") == IfaceFlag;
  }

  /** The last MAC argument wins; one that is not 17 characters long ends the
      program with a failure. */
  lemma LastMacWins(argv: seq<seq<char>>, a: seq<char>)
    requires |argv| >= 1 && ParseSpec(argv).Parsed?
    requires Classify(a) == MacArg
    ensures |a| != 17 ==> ParseSpec(argv + [a]) == BadMacText
    ensures |a| == 17 && |ScanPairs(Lower(a))| <= 6 ==>
      ParseSpec(argv + [a])
      == Parsed(ParseSpec(argv).opts.(mac := Some(ScanPairs(Lower(a))), printCurrent := false))
  {
    ScanAppend(argv, [a], 1, Unset);
    ScanFacts(argv, 1, Unset);
    assert (argv + [a])[|argv|] == a;
  }

  /** Only `-i` sets the interface: a scan over arguments none of which is
      taken for `-i` leaves it as it was. */
  lemma {:induction false} ScanKeepsInterface(argv: seq<seq<char>>, i: nat, o: Options)
    requires ScanArgs(argv, i, o).Parsed?
    requires forall j :: i <= j < |argv| ==> Classify(argv[j]) != IfaceFlag
    ensures ScanArgs(argv, i, o).opts.iface == o.iface
    decreases |argv| - i
  {
    if i < |argv| {
      var kind := Classify(argv[i]);
      var o' :=
        if kind == HelpFlag then o.(help := true)
        else if kind == PermFlag then o.(printPerm := true)
        else if kind == RandomFlag then o.(random := true)
        else if kind == ResetFlag then o.(reset := true)
        else o.(mac := DecodeMac(argv[i]));
      assert ScanArgs(argv, i, o) == ScanArgs(argv, i + 1, o');
      ScanKeepsInterface(argv, i + 1, o');
    }
  }

  /** Without any `-i`, a command line that parses uses the default interface. */
  lemma DefaultInterface(argv: seq<seq<char>>)
    requires ParseSpec(argv).Parsed?
    requires forall j :: 1 <= j < |argv| ==> Classify(argv[j]) != IfaceFlag
    ensures ParseSpec(argv).opts.iface == Some(DefaultIface)
  {
    ScanKeepsInterface(argv, 1, Unset);
  }

  /** Arguments after the last `-i name` do not change the interface: with a
      tail holding no `-i`, the command line keeps the interface it had. */
  lemma InterfaceKept(argv: seq<seq<char>>, tail: seq<seq<char>>)
    requires |argv| >= 1 && ParseSpec(argv).Parsed?
    requires ParseSpec(argv + tail).Parsed?
    requires forall j :: 0 <= j < |tail| ==> Classify(tail[j]) != IfaceFlag
    ensures ParseSpec(argv + tail).opts.iface == ParseSpec(argv).opts.iface
  {
    var full := argv + tail;
    ScanAppend(argv, tail, 1, Unset);
    forall j | |argv| <= j < |full|
      ensures Classify(full[j]) != IfaceFlag
    {
      assert full[j] == tail[j - |argv|];
    }
    ScanKeepsInterface(full, |argv|, ScanArgs(argv, 1, Unset).opts);
  }

  /** A MAC argument that fails to convert ends the scan, whatever follows. */
  lemma {:induction false} ScanMacFailureIsFinal(argv: seq<seq<char>>, tail: seq<seq<char>>, i: nat, o: Options)
    requires i <= |argv|
    requires ScanArgs(argv, i, o) == BadMacText || ScanArgs(argv, i, o) == MacOverrun
    ensures ScanArgs(argv + tail, i, o) == ScanArgs(argv, i, o)
    decreases |argv| - i
  {
    var full := argv + tail;
    assert full[i] == argv[i];
    var kind := Classify(argv[i]);
    if kind == IfaceFlag {
      assert full[i + 1] == argv[i + 1];
      ScanMacFailureIsFinal(argv, tail, i + 2, o.(iface := Some(argv[i + 1])));
    } else if kind != MacArg {
      var o' :=
        if kind == HelpFlag then o.(help := true)
        else if kind == PermFlag then o.(printPerm := true)
        else if kind == RandomFlag then o.(random := true)
        else o.(reset := true);
      assert ScanArgs(argv, i, o) == ScanArgs(argv, i + 1, o');
      assert ScanArgs(full, i, o) == ScanArgs(full, i + 1, o');
      ScanMacFailureIsFinal(argv, tail, i + 1, o');
    } else if DecodeMac(argv[i]).Some? && |DecodeMac(argv[i]).value| <= 6 {
      var o' := o.(mac := DecodeMac(argv[i]));
      ScanMacFailureIsFinal(argv, tail, i + 1, o');
    }
  }

  /** `exit(EXIT_FAILURE)` on a bad MAC argument is final: a command line that
      fails that way still fails that way with more arguments after it. */
  lemma MacFailureIsFinal(argv: seq<seq<char>>, tail: seq<seq<char>>)
    requires |argv| >= 1
    requires ParseSpec(argv) == BadMacText || ParseSpec(argv) == MacOverrun
    ensures ParseSpec(argv + tail) == ParseSpec(argv)
  {
    ScanMacFailureIsFinal(argv, tail, 1, Unset);
  }

  /** A well-formed address given as an argument is stored as its six bytes. */
  lemma WellFormedMacArgument(argv: seq<seq<char>>, a: seq<char>)
    requires |argv| >= 1 && ParseSpec(argv).Parsed?
    requires WellFormed(a)
    ensures ParseSpec(argv + [a]).Parsed?
    ensures ParseSpec(argv + [a]).opts.mac == ParseMac(a)
  {
    assert a[2] == ':';
    StringToMacWellFormed(a);
    NulFreeOfWellFormed(a);
    ClassifyRules(a);
    assert a[..2] != "-h" && a[..2] != "-r" && a[..2] != "-i" by {
      assert a[1] != 'h' && a[1] != 'r' && a[1] != 'i' by {
        assert IsHexDigit(a[1]);
      }
    }
    LastMacWins(argv, a);
  }

  lemma NulFreeOfWellFormed(t: seq<char>)
    requires WellFormed(t)
    ensures NulFree(t)
  {
    forall k | 0 <= k < |t|
      ensures t[k] != '\0'
    {
      if k % 3 != 2 {
        assert IsHexDigit(t[k]);
      }
    }
  }

  // ---------------------------------------------------------------------------
  // The precedence chain in main

  /** The branch of `main` that runs. SetExplicit carries the `mac` global,
      which is None (NULL) when no MAC argument was given. */
  datatype Action =
    | ShowHelp
    | ShowPermanentAndCurrent
    | ShowCurrent
    | ResetToPermanent
    | SetRandom
    | SetExplicit(mac: Option<seq<Byte>>)

  /** The `if / else if` chain of `main`. */
  function Dispatch(o: Options): (a: Action)
    ensures o.help ==> a == ShowHelp
    ensures a.SetExplicit? <==> !o.help && !o.printPerm && !o.printCurrent && !o.reset && !o.random
    ensures a.SetExplicit? ==> a.mac == o.mac
  {
    if o.help then ShowHelp
    else if o.printPerm then ShowPermanentAndCurrent
    else if o.printCurrent then ShowCurrent
    else if o.reset then ResetToPermanent
    else if o.random then SetRandom
    else SetExplicit(o.mac)
  }

  /** Help beats printing the permanent address, which beats printing the
      current one, which beats reset, which beats random, which beats setting
      the given address; the last branch runs whenever no flag is set. */
  lemma DispatchPrecedence(o: Options)
    ensures Dispatch(o) == ShowHelp <==> o.help
    ensures Dispatch(o) == ShowPermanentAndCurrent <==> !o.help && o.printPerm
    ensures Dispatch(o) == ShowCurrent <==> !o.help && !o.printPerm && o.printCurrent
    ensures Dispatch(o) == ResetToPermanent <==> !o.help && !o.printPerm && !o.printCurrent && o.reset
    ensures Dispatch(o) == SetRandom
        <==> !o.help && !o.printPerm && !o.printCurrent && !o.reset && o.random
    ensures Dispatch(o).SetExplicit?
        <==> !o.help && !o.printPerm && !o.printCurrent && !o.reset && !o.random
    ensures Dispatch(o).SetExplicit? ==> Dispatch(o).mac == o.mac
  {
  }

  /** `-i name xx:xx:xx:xx:xx:xx` sets that address on that interface. */
  lemma ExplicitAddressScenario(prog: seq<char>, name: seq<char>, a: seq<char>)
    requires WellFormed(a)
    ensures ParseSpec([prog, "-i", name, a]) == Parsed(Unset.(iface := Some(name), mac := ParseMac(a)))
    ensures Dispatch(ParseSpec([prog, "-i", name, a]).opts) == SetExplicit(ParseMac(a))
  {
    var pre: seq<seq<char>> := [prog, "-i", name];
    InterfaceOnlyReachesExplicitWithNull(prog, name);
    WellFormedMacArgument(pre, a);
    LastMacWins(pre, a);
    assert pre + [a] == [prog, "-i", name, a];
  }

  /** `-p` together with an address prints and never applies the address,
      although the address is parsed. */
  lemma PermanentBeatsExplicitAddress(prog: seq<char>, a: seq<char>)
    requires WellFormed(a)
    ensures ParseSpec([prog, "-p", a]).Parsed?
    ensures ParseSpec([prog, "-p", a]).opts.mac == ParseMac(a)
    ensures Dispatch(ParseSpec([prog, "-p", a]).opts) == ShowPermanentAndCurrent
  {
    assert Classify("-p") == PermFlag;
    assert ScanArgs([prog, "-p"], 1, Unset) == Parsed(Unset.(printPerm := true));
    WellFormedMacArgument([prog, "-p"], a);
    LastMacWins([prog, "-p"], a);
    assert [prog, "-p"] + [a] == [prog, "-p", a];
  }

  /** With only `-i name` the explicit branch runs with a NULL address. */
  lemma InterfaceOnlyReachesExplicitWithNull(prog: seq<char>, name: seq<char>)
    ensures ParseSpec([prog, "-i", name]) == Parsed(Unset.(iface := Some(name)))
    ensures Dispatch(ParseSpec([prog, "-i", name]).opts) == SetExplicit(None)
  {
    NoArgumentsPrintsCurrent(prog);
    LastInterfaceWins([prog], name);
    assert [prog] + ["-i", name] == [prog, "-i", name];
  }
}
