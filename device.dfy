/** The device descriptor `info` (a socket and an `ifreq`), the copy loops of
    `set_mac_address` and `get_mac`, and the branches of `main` that act on
    it. Kernel calls are given as their outcomes: the bytes the
    SIOCGIFHWADDR call filled in, whether SIOCSIFHWADDR succeeded, and what
    the permanent-address query returned. */
module Device {
  import opened Types
  import opened MacText
  import opened Cli

  /** `info`: the socket and the `ifreq` bound to one interface. Only the
      hardware-address bytes `dev.ifr_hwaddr.sa_data` change. */
  class Interface {
    const socket: int
    const name: seq<char>
    /** `dev.ifr_hwaddr.sa_data`: 14 bytes, the address in the first six. */
    const hwData: array<Byte>

    ghost predicate Valid()
      reads this
    {
      hwData.Length == 14
    }

    /** The address the descriptor holds. */
    ghost function Current(): Mac
      reads this, hwData
      requires Valid()
    {
      hwData[..6]
    }

    /** The descriptor as SIOCGIFHWADDR left it, with `reported` its `sa_data`. */
    constructor (socket: int, name: seq<char>, reported: seq<Byte>)
      requires |reported| == 14
      ensures Valid() && fresh(hwData)
      ensures this.socket == socket && this.name == name
      ensures hwData[..] == reported
    {
      this.socket := socket;
      this.name := name;
      hwData := new Byte[14](k requires 0 <= k < 14 => reported[k]);
    }

    /** `set_mac_address`: copies the six bytes into `sa_data` and then issues
        SIOCSIFHWADDR, whose outcome is `ioctlOk`. The copy stays in the
        descriptor even when the call fails. */
    method SetMacAddress(newMac: Mac, ioctlOk: bool) returns (status: int)
      requires Valid()
      modifies hwData
      ensures Valid()
      ensures status == (if ioctlOk then 0 else -1)
      ensures Current() == newMac
      ensures hwData[6..] == old(hwData[6..])
    {
      for i := 0 to 6
        invariant forall k :: 0 <= k < i ==> hwData[k] == newMac[k]
        invariant forall k :: i <= k < 14 ==> hwData[k] == old(hwData[k])
      {
        hwData[i] := newMac[i];
      }
      status := if ioctlOk then 0 else -1;
    }

    /** `get_mac`: copies the first six bytes of `sa_data` out. */
    method GetMac() returns (mac: Mac)
      requires Valid()
      ensures mac == hwData[..6]
    {
      var buf: seq<Byte> := [];
      for i := 0 to 6
        invariant buf == hwData[..i]
      {
        buf := buf + [hwData[i]];
      }
      mac := buf;
    }
  }

  /** `set_mac_address` followed by `get_mac` reads back the address just
      set, whether or not the kernel accepted it. */
  method SetThenGet(inf: Interface, newMac: Mac, ioctlOk: bool) returns (status: int, got: Mac)
    requires inf.Valid()
    modifies inf.hwData
    ensures inf.Valid()
    ensures status == (if ioctlOk then 0 else -1)
    ensures got == newMac
  {
    status := inf.SetMacAddress(newMac, ioctlOk);
    got := inf.GetMac();
  }

  /** How the process ends: `exit(EXIT_SUCCESS)` / `return 0`,
      `exit(EXIT_FAILURE)`, or a crash on a NULL address. */
  datatype Exit = ExitSuccess | ExitFailure | NullDereference

  /** The branches that read an address through a NULL pointer: the
      permanent-address query failed where its result is used (lines 229 and
      234), or no MAC argument was given to the explicit branch. */
  function ReadsNull(act: Action, permanent: Option<Mac>): (r: bool)
    ensures r ==> act != ShowHelp && act != ShowCurrent && act != SetRandom
    ensures act.SetExplicit? ==> (r <==> act.mac.None?)
    ensures permanent.Some? && !act.SetExplicit? ==> !r
  {
    ((act == ShowPermanentAndCurrent || act == ResetToPermanent) && permanent.None?)
    || act == SetExplicit(None)
  }

  /** The address a changing branch writes, when it gets as far as writing.
      An explicit address that `string_to_mac` filled only partly keeps the
      bytes `heap` that `malloc` returned in the rest. */
  function Target(act: Action, permanent: Option<Mac>, randomMac: Mac, heap: Mac): (t: Option<Mac>)
    ensures t.Some? <==>
      act == SetRandom || (act == ResetToPermanent && permanent.Some?) ||
      (act.SetExplicit? && act.mac.Some? && |act.mac.value| <= 6)
    ensures act == ResetToPermanent ==> t == permanent
    ensures act == SetRandom ==> t == Some(randomMac)
    ensures act.SetExplicit? && act.mac.Some? && |act.mac.value| <= 6 ==>
      t.value[..|act.mac.value|] == act.mac.value &&
      t.value[|act.mac.value|..] == heap[|act.mac.value|..]
  {
    match act
    case ResetToPermanent => permanent
    case SetRandom => Some(randomMac)
    case SetExplicit(mac) =>
      if mac.Some? && |mac.value| <= 6 then Some(mac.value + heap[|mac.value|..]) else None
    case _ => None
  }

  /** The common tail of the three changing branches: set, then report. */
  method SetAndReport(inf: Interface, target: Mac, setOk: bool)
    returns (exit: Exit, shown: seq<seq<char>>, broughtUp: bool)
    requires inf.Valid()
    modifies inf.hwData
    ensures inf.Valid()
    ensures inf.Current() == target && inf.hwData[6..] == old(inf.hwData[6..])
    ensures exit == (if setOk then ExitSuccess else ExitFailure)
    ensures shown == (if setOk then [MacToString(target)] else [])
    ensures broughtUp
  {
    var status := inf.SetMacAddress(target, setOk);
    if status < 0 {
      return ExitFailure, [], true;
    }
    return ExitSuccess, [MacToString(target)], true;
  }

  /** Lines 218-257 of `main`: run the chosen branch on the descriptor and
      bring the interface back up, except after a crash. `shown` lists the
      addresses printed, in order, as `mac_to_string` renders them. The
      second permanent-address query of the reset branch is taken to answer
      like the first. */
  method Execute(inf: Interface, act: Action, permanent: Option<Mac>, randomMac: Mac, heap: Mac, setOk: bool)
    returns (exit: Exit, shown: seq<seq<char>>, broughtUp: bool)
    requires inf.Valid()
    requires act.SetExplicit? && act.mac.Some? ==> |act.mac.value| <= 6
    modifies inf.hwData
    ensures inf.Valid()
    ensures broughtUp <==> exit != NullDereference
    ensures exit == NullDereference <==> ReadsNull(act, permanent)
    ensures exit == ExitFailure <==> Target(act, permanent, randomMac, heap).Some? && !setOk
    ensures Target(act, permanent, randomMac, heap).Some? ==>
      inf.Current() == Target(act, permanent, randomMac, heap).value
    ensures Target(act, permanent, randomMac, heap).None? ==> inf.Current() == old(inf.Current())
    ensures inf.hwData[6..] == old(inf.hwData[6..])
    ensures act == ShowCurrent ==> shown == [MacToString(old(inf.Current()))]
    ensures act == ShowPermanentAndCurrent && permanent.Some? ==>
      shown == [MacToString(permanent.value), MacToString(old(inf.Current()))]
    ensures Target(act, permanent, randomMac, heap).Some? && setOk ==>
      shown == [MacToString(Target(act, permanent, randomMac, heap).value)]
    ensures act == ShowHelp || exit != ExitSuccess ==> shown == []
  {
    match act {
      case ShowHelp =>
        return ExitSuccess, [], true;
      case ShowPermanentAndCurrent =>
        if permanent.None? {
          return NullDereference, [], false;
        }
        var current := inf.GetMac();
        return ExitSuccess, [MacToString(permanent.value), MacToString(current)], true;
      case ShowCurrent =>
        var current := inf.GetMac();
        return ExitSuccess, [MacToString(current)], true;
      case ResetToPermanent =>
        if permanent.None? {
          return NullDereference, [], false;
        }
        exit, shown, broughtUp := SetAndReport(inf, permanent.value, setOk);
      case SetRandom =>
        exit, shown, broughtUp := SetAndReport(inf, randomMac, setOk);
      case SetExplicit(mac) =>
        if mac.None? {
          return NullDereference, [], false;
        }
        var buffer: Mac := mac.value + heap[|mac.value|..];
        exit, shown, broughtUp := SetAndReport(inf, buffer, setOk);
    }
  }
}
