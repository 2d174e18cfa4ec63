/** The enumeration as the code performs it: specs[] flags and the caller's device_info are
    updated in place, call by call. */
module StorageApi {
  import opened StorageEnum

  class DeviceInfo {
    var typ: int
    var cookie: Ptr
    var blockCount: nat
    var blockSize: nat

    function Value(): Info
      reads this
    {
      Info(typ, cookie, blockCount, blockSize)
    }
  }

  class Specs {
    const sys: System
    const started: array<bool>
    const ended: array<bool>

    ghost predicate Valid() {
      started != ended && started.Length == ended.Length == |sys.groups|
    }

    /** dev_stor_init for the configured groups. */
    constructor (sys: System)
      ensures Valid() && this.sys == sys && fresh(started) && fresh(ended)
      ensures CurrentFlags() == Clear(|sys.groups|)
    {
      this.sys := sys;
      started := new bool[|sys.groups|](i => false);
      ended := new bool[|sys.groups|](i => false);
    }

    function CurrentFlags(): (fl: Flags)
      reads started, ended
    {
      Flags(started[..], ended[..])
    }

    method DevStorGet(g: nat, di: DeviceInfo) returns (found: bool, more: bool)
      requires Valid() && g < |sys.groups|
      modifies di
      ensures var r := StorGet(sys, g, old(di.Value()));
              found == r.found && more == r.more && di.Value() == r.di
    {
      found, more := false, false;
      if !sys.groups[g].named {
        return;
      }
      var devs := sys.groups[g].devs;
      var i := 0;
      if di.cookie != NULL {
        var foundLast := false;
        while i < |devs| && !foundLast
          invariant 0 <= i <= |devs|
          invariant !foundLast ==> IndexOf(devs, di.cookie, 0) == IndexOf(devs, di.cookie, i)
          invariant foundLast ==> i == IndexOf(devs, di.cookie, 0) + 1
        {
          foundLast := di.cookie == devs[i];
          i := i + 1;
        }
        if !foundLast {
          i := 0;
        }
      }
      assert i == ResumeAt(devs, di.cookie);
      while i < |devs| && !found
        invariant 0 <= i <= |devs|
        invariant NextPresent(devs, ResumeAt(devs, old(di.cookie))) == NextPresent(devs, i)
        invariant di.Value().(cookie := NULL) == old(di.Value()).(cookie := NULL)
        invariant found ==> i < |devs| && devs[i] == di.cookie != NULL
        decreases |devs| - i, !found
      {
        di.cookie := devs[i];
        if di.cookie != NULL {
          found := true;
        } else {
          i := i + 1;
        }
      }
      more := i != |devs|;
      if found {
        di.typ := sys.groups[g].typ;
        var dd := sys.desc(di.cookie);
        if dd.typ == DEV_TYPE_UNKNOWN {
          found := false;
        } else {
          di.blockCount, di.blockSize := dd.lba, dd.blksz;
        }
      } else {
        di.cookie := NULL;
      }
    }

    method DevStorType(p: Ptr) returns (g: nat)
      requires Valid()
      ensures g == StorType(sys, p, 0)
    {
      g := 0;
      while g < |sys.groups|
        invariant 0 <= g <= |sys.groups|
        invariant StorType(sys, p, 0) == StorType(sys, p, g)
      {
        var j := 0;
        while j < |sys.groups[g].devs|
          invariant 0 <= j <= |sys.groups[g].devs|
          invariant p !in sys.groups[g].devs[..j]
        {
          if p == sys.groups[g].devs[j] {
            return;
          }
          j := j + 1;
        }
        g := g + 1;
      }
    }

    method DevEnumStor(g: nat, di: DeviceInfo) returns (found: bool)
      requires Valid() && g < |sys.groups|
      modifies di, started, ended
      ensures var r := EnumStor(sys, g, old(CurrentFlags()), old(di.Value()));
              found == r.found && di.Value() == r.di && CurrentFlags() == r.fl
    {
      var more := false;
      found := false;
      var group := DevStorType(di.cookie);
      if di.cookie == NULL {
        found, more := DevStorGet(g, di);
        started[g] := true;
      } else if group == g {
        if ended[g] {
          return false;
        }
        found, more := DevStorGet(g, di);
      } else {
        if ended[g] {
          return false;
        }
        if !started[g] {
          started[g] := true;
          found, more := DevStorGet(g, di);
        }
      }
      ended[g] := !more;
    }

    method DevEnumReset()
      requires Valid()
      modifies started, ended
      ensures CurrentFlags() == Clear(|sys.groups|)
    {
      var i := 0;
      while i < |sys.groups|
        invariant 0 <= i <= |sys.groups|
        invariant forall k :: 0 <= k < i ==> !started[k] && !ended[k]
      {
        started[i], ended[i] := false, false;
        i := i + 1;
      }
    }

    method DevEnumStorage(di: DeviceInfo) returns (found: bool)
      requires Valid()
      modifies di, started, ended
      ensures var r := EnumStorage(sys, 0, old(CurrentFlags()), old(di.Value()));
              found == r.found && di.Value() == r.di && CurrentFlags() == r.fl
    {
      ghost var all := EnumStorage(sys, 0, CurrentFlags(), di.Value());
      var i := 0;
      while i < |sys.groups|
        invariant 0 <= i <= |sys.groups|
        invariant all == EnumStorage(sys, i, CurrentFlags(), di.Value())
      {
        found := DevEnumStor(i, di);
        if found {
          return true;
        }
        i := i + 1;
      }
      return false;
    }

    /** API_dev_enum, with dev_enum_net answering the current network device. */
    method ApiDevEnum(di: DeviceInfo?) returns (rc: int)
      requires Valid()
      modifies di, started, ended
      ensures di == null ==> rc == 1 && CurrentFlags() == old(CurrentFlags())
      ensures di != null ==>
                && rc == 0
                && State(CurrentFlags(), di.Value()) == DevEnum(sys, State(old(CurrentFlags()), old(di.Value())))
    {
      if di == null {
        return API_EINVAL;
      }
      if di.cookie == NULL {
        DevEnumReset();
        di.typ, di.cookie := DEV_TYP_NET, sys.eth;
        if di.cookie != NULL {
          return 0;
        }
      }
      var found := DevEnumStorage(di);
      if !found {
        di.cookie := NULL;
      }
      return 0;
    }
  }
}
