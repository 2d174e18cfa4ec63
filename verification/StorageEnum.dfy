/** The device enumeration protocol of the external-applications API: a resumable iterator whose
    state is split between a cookie held by the caller and two flags per storage group. */
module StorageEnum {
  type Ptr = nat

  const NULL: Ptr := 0
  const DEV_TYP_NET := 0x0001
  const DEV_TYPE_UNKNOWN := 0xff
  const API_EINVAL := 1

  /** The fields of a blk_desc the enumeration reads. */
  datatype BlkDesc = BlkDesc(typ: int, lba: nat, blksz: nat)

  /** One entry of specs[]: `devs[i]` is what blk_get_dev(name, i) answers, i < max_dev;
      `named` says the group is configured. */
  datatype Group = Group(named: bool, typ: int, devs: seq<Ptr>)

  /** What does not change between calls: the storage groups in ENUM_ order, the descriptors
      behind the pointers, and the current network device or NULL. */
  datatype System = System(groups: seq<Group>, desc: Ptr -> BlkDesc, eth: Ptr)

  /** enum_started and enum_ended of every group. */
  datatype Flags = Flags(started: seq<bool>, ended: seq<bool>)

  /** The caller's struct device_info. */
  datatype Info = Info(typ: int, cookie: Ptr, blockCount: nat, blockSize: nat)

  predicate Fits(sys: System, fl: Flags) {
    |fl.started| == |fl.ended| == |sys.groups|
  }

  predicate Active(sys: System, p: Ptr) {
    sys.desc(p).typ != DEV_TYPE_UNKNOWN
  }

  // ---------------------------------------------------------------- what the code computes

  function IndexOf(devs: seq<Ptr>, p: Ptr, i: nat): (j: nat)
    requires i <= |devs|
    ensures i <= j <= |devs|
    ensures j < |devs| ==> devs[j] == p
    ensures forall k :: i <= k < j ==> devs[k] != p
    decreases |devs| - i
  {
    if i == |devs| || devs[i] == p then i else IndexOf(devs, p, i + 1)
  }

  function NextPresent(devs: seq<Ptr>, i: nat): (j: nat)
    requires i <= |devs|
    ensures i <= j <= |devs|
    ensures j < |devs| ==> devs[j] != NULL
    ensures forall k :: i <= k < j ==> devs[k] == NULL
    decreases |devs| - i
  {
    if i == |devs| || devs[i] != NULL then i else NextPresent(devs, i + 1)
  }

  /** Where dev_stor_get starts looking: after the cookie's device, or at the front. */
  function ResumeAt(devs: seq<Ptr>, cookie: Ptr): (i: nat)
    ensures i <= |devs|
  {
    if cookie == NULL then 0
    else
      var j := IndexOf(devs, cookie, 0);
      if j < |devs| then j + 1 else 0
  }

  datatype Got = Got(found: bool, more: bool, di: Info)

  function StorGet(sys: System, g: nat, di: Info): Got
    requires g < |sys.groups|
  {
    var grp := sys.groups[g];
    if !grp.named then Got(false, false, di)
    else
      var j := NextPresent(grp.devs, ResumeAt(grp.devs, di.cookie));
      if j == |grp.devs| then Got(false, false, di.(cookie := NULL))
      else
        var p := grp.devs[j];
        if Active(sys, p) then Got(true, true, Info(grp.typ, p, sys.desc(p).lba, sys.desc(p).blksz))
        else Got(false, true, di.(typ := grp.typ, cookie := p))
  }

  /** dev_stor_type: the first group that holds the pointer, or the number of groups. */
  function StorType(sys: System, p: Ptr, g: nat): (r: nat)
    requires g <= |sys.groups|
    ensures g <= r <= |sys.groups|
    ensures r < |sys.groups| ==> p in sys.groups[r].devs
    ensures forall h :: g <= h < r ==> p !in sys.groups[h].devs
    decreases |sys.groups| - g
  {
    if g == |sys.groups| || p in sys.groups[g].devs then g else StorType(sys, p, g + 1)
  }

  datatype Step = Step(found: bool, fl: Flags, di: Info)

  function EnumStor(sys: System, g: nat, fl: Flags, di: Info): (r: Step)
    requires g < |sys.groups| && Fits(sys, fl)
    ensures Fits(sys, r.fl)
  {
    var got := StorGet(sys, g, di);
    if di.cookie == NULL then
      Step(got.found, Flags(fl.started[g := true], fl.ended[g := !got.more]), got.di)
    else if StorType(sys, di.cookie, 0) == g then
      if fl.ended[g] then Step(false, fl, di)
      else Step(got.found, fl.(ended := fl.ended[g := !got.more]), got.di)
    else if fl.ended[g] then Step(false, fl, di)
    else if !fl.started[g] then
      Step(got.found, Flags(fl.started[g := true], fl.ended[g := !got.more]), got.di)
    else Step(false, fl.(ended := fl.ended[g := true]), di)
  }

  /** The group loop of dev_enum_storage from group g on. */
  function EnumStorage(sys: System, g: nat, fl: Flags, di: Info): (r: Step)
    requires g <= |sys.groups| && Fits(sys, fl)
    ensures Fits(sys, r.fl)
    decreases |sys.groups| - g
  {
    if g == |sys.groups| then Step(false, fl, di)
    else
      var s := EnumStor(sys, g, fl, di);
      if s.found then s else EnumStorage(sys, g + 1, s.fl, s.di)
  }

  function Clear(n: nat): Flags {
    Flags(seq(n, i => false), seq(n, i => false))
  }

  datatype State = State(fl: Flags, di: Info)

  /** API_dev_enum on a device_info that is there. */
  function DevEnum(sys: System, s: State): (r: State)
    requires Fits(sys, s.fl)
    ensures Fits(sys, r.fl)
  {
    var restart := s.di.cookie == NULL;
    var fl := if restart then Clear(|sys.groups|) else s.fl;
    var di := if restart then s.di.(typ := DEV_TYP_NET, cookie := sys.eth) else s.di;
    if restart && di.cookie != NULL then State(fl, di)
    else
      var e := EnumStorage(sys, 0, fl, di);
      State(e.fl, if e.found then e.di else e.di.(cookie := NULL))
  }

  // ---------------------------------------------------------------- what it should list

  /** Devices are told apart by their pointers; an unconfigured group has no devices. */
  ghost predicate WellFormed(sys: System) {
    && (forall g :: 0 <= g < |sys.groups| && !sys.groups[g].named ==> sys.groups[g].devs == [])
    && (forall g, i, h, j :: Present(sys, g, i) && Present(sys, h, j) && sys.groups[g].devs[i] == sys.groups[h].devs[j]
          ==> g == h && i == j)
    && (forall g, i :: Present(sys, g, i) ==> sys.groups[g].devs[i] != sys.eth)
  }

  ghost predicate Present(sys: System, g: int, i: int) {
    0 <= g < |sys.groups| && 0 <= i < |sys.groups[g].devs| && sys.groups[g].devs[i] != NULL
  }

  datatype Entry = Net | Stor(g: nat, i: nat)

  /** From position (g, i): the present devices in (group, index) order, where an inactive
      device ends its group. */
  function Listing(sys: System, g: nat, i: nat): seq<Entry>
    requires g <= |sys.groups| && (g < |sys.groups| ==> i <= |sys.groups[g].devs|)
    decreases |sys.groups| - g, if g < |sys.groups| then |sys.groups[g].devs| - i else 0
  {
    if g == |sys.groups| then []
    else
      var devs := sys.groups[g].devs;
      if i == |devs| then Listing(sys, g + 1, 0)
      else if devs[i] == NULL then Listing(sys, g, i + 1)
      else if !Active(sys, devs[i]) then Listing(sys, g + 1, 0)
      else [Stor(g, i)] + Listing(sys, g, i + 1)
  }

  function Expected(sys: System): seq<Entry> {
    (if sys.eth != NULL then [Net] else []) + Listing(sys, 0, 0)
  }

  predicate ValidEntry(sys: System, e: Entry) {
    e.Stor? ==> e.g < |sys.groups| && e.i < |sys.groups[e.g].devs|
  }

  function CookieOf(sys: System, e: Entry): Ptr
    requires ValidEntry(sys, e)
  {
    match e
    case Net => sys.eth
    case Stor(g, i) => sys.groups[g].devs[i]
  }

  // ---------------------------------------------------------------- the protocol invariant

  predicate Fresh(fl: Flags, g: nat) {
    |fl.started| == |fl.ended| && forall h :: g <= h < |fl.started| ==> !fl.started[h] && !fl.ended[h]
  }

  /** The device_info and the flags just after entry e was returned. */
  ghost predicate At(sys: System, s: State, e: Entry)
    requires Fits(sys, s.fl) && ValidEntry(sys, e)
  {
    && s.di.cookie == CookieOf(sys, e) != NULL
    && match e
       case Net => s.di.typ == 0x0001 && Fresh(s.fl, 0)
       case Stor(g, i) =>
         var d := sys.desc(s.di.cookie);
         && Active(sys, s.di.cookie)
         && s.di.typ == sys.groups[g].typ && s.di.blockCount == d.lba && s.di.blockSize == d.blksz
         && (forall h :: 0 <= h <= g ==> s.fl.started[h])
         && !s.fl.ended[g]
         && Fresh(s.fl, g + 1)
  }

  /** A device_info answers e: what follows is the head of a listing, or nothing. */
  ghost predicate Answers(sys: System, r: Step, list: seq<Entry>)
    requires Fits(sys, r.fl)
  {
    if list == [] then !r.found else r.found && ValidEntry(sys, list[0]) && At(sys, State(r.fl, r.di), list[0])
  }

  lemma {:induction false} ListingNext(sys: System, g: nat, i: nat)
    requires g < |sys.groups| && i <= |sys.groups[g].devs|
    ensures var devs := sys.groups[g].devs;
            var j := NextPresent(devs, i);
            Listing(sys, g, i) == if j < |devs| && Active(sys, devs[j]) then [Stor(g, j)] + Listing(sys, g, j + 1)
                                  else Listing(sys, g + 1, 0)
    decreases |sys.groups[g].devs| - i
  {
    if i < |sys.groups[g].devs| && sys.groups[g].devs[i] == NULL {
      ListingNext(sys, g, i + 1);
    }
  }

  lemma TypeOf(sys: System, g: nat, i: nat)
    requires WellFormed(sys) && Present(sys, g, i)
    ensures StorType(sys, sys.groups[g].devs[i], 0) == g
    ensures IndexOf(sys.groups[g].devs, sys.groups[g].devs[i], 0) == i
  {
    var p := sys.groups[g].devs[i];
    var r := StorType(sys, p, 0);
    var j :| 0 <= j < |sys.groups[r].devs| && sys.groups[r].devs[j] == p;
    assert Present(sys, r, j);
    assert Present(sys, g, IndexOf(sys.groups[g].devs, p, 0));
  }

  /** Groups not yet visited, entered with a cookie that belongs to none of them, answer with
      the head of their listing. */
  lemma {:induction false} FreshGroups(sys: System, g: nat, fl: Flags, di: Info)
    requires WellFormed(sys) && g <= |sys.groups| && Fits(sys, fl) && Fresh(fl, g)
    requires forall h :: 0 <= h < g ==> fl.started[h]
    requires di.cookie != NULL ==> forall h :: g <= h < |sys.groups| ==> di.cookie !in sys.groups[h].devs
    ensures Answers(sys, EnumStorage(sys, g, fl, di), Listing(sys, g, 0))
    decreases |sys.groups| - g
  {
    if g < |sys.groups| {
      var devs := sys.groups[g].devs;
      assert ResumeAt(devs, di.cookie) == 0;
      ListingNext(sys, g, 0);
      var s := EnumStor(sys, g, fl, di);
      if !s.found {
        if s.di.cookie != NULL && s.di.cookie != di.cookie {
          ForeignToLater(sys, g, NextPresent(devs, 0));
        }
        FreshGroups(sys, g + 1, s.fl, s.di);
      }
    }
  }

  lemma ForeignToLater(sys: System, g: nat, i: nat)
    requires WellFormed(sys) && Present(sys, g, i)
    ensures forall h :: g < h < |sys.groups| ==> sys.groups[g].devs[i] !in sys.groups[h].devs
  {
    forall h | g < h < |sys.groups| ensures sys.groups[g].devs[i] !in sys.groups[h].devs {
      if sys.groups[g].devs[i] in sys.groups[h].devs {
        var j :| 0 <= j < |sys.groups[h].devs| && sys.groups[h].devs[j] == sys.groups[g].devs[i];
        assert Present(sys, h, j);
      }
    }
  }

  /** Groups before the cookie's group are passed over without touching the cookie, whether they
      ended or were left at an inactive device; then the cookie's group continues. */
  lemma {:induction false} Resume(sys: System, h: nat, fl: Flags, di: Info, g: nat, i: nat)
    requires WellFormed(sys) && h <= g && Present(sys, g, i) && Fits(sys, fl)
    requires di.cookie == sys.groups[g].devs[i]
    requires (forall k :: 0 <= k <= g ==> fl.started[k]) && !fl.ended[g] && Fresh(fl, g + 1)
    ensures Answers(sys, EnumStorage(sys, h, fl, di), Listing(sys, g, i + 1))
    decreases g - h
  {
    TypeOf(sys, g, i);
    var s := EnumStor(sys, h, fl, di);
    if h < g {
      Resume(sys, h + 1, s.fl, s.di, g, i);
    } else {
      var devs := sys.groups[g].devs;
      assert ResumeAt(devs, di.cookie) == i + 1;
      ListingNext(sys, g, i + 1);
      if !s.found {
        if s.di.cookie != NULL {
          ForeignToLater(sys, g, NextPresent(devs, i + 1));
        }
        FreshGroups(sys, g + 1, s.fl, s.di);
      }
    }
  }

  /** The groups before the one the loop starts at keep their flags. */
  lemma {:induction false} FlagsKept(sys: System, g: nat, fl: Flags, di: Info)
    requires g <= |sys.groups| && Fits(sys, fl)
    ensures var r := EnumStorage(sys, g, fl, di).fl;
            forall h :: 0 <= h < g ==> r.started[h] == fl.started[h] && r.ended[h] == fl.ended[h]
    decreases |sys.groups| - g
  {
    if g < |sys.groups| {
      var s := EnumStor(sys, g, fl, di);
      assert forall h :: 0 <= h < g ==> s.fl.started[h] == fl.started[h] && s.fl.ended[h] == fl.ended[h];
      if !s.found {
        FlagsKept(sys, g + 1, s.fl, s.di);
      }
    }
  }

  /** A group that was started and is passed over is closed, also one left at an inactive device. */
  lemma {:induction false} PassedGroupsEnd(sys: System, h: nat, fl: Flags, di: Info, g: nat)
    requires h <= g < |sys.groups| && Fits(sys, fl) && di.cookie != NULL && StorType(sys, di.cookie, 0) == g
    requires forall k :: h <= k < g ==> fl.started[k]
    ensures forall k :: h <= k < g ==> EnumStorage(sys, h, fl, di).fl.ended[k]
    decreases g - h
  {
    if h < g {
      var s := EnumStor(sys, h, fl, di);
      PassedGroupsEnd(sys, h + 1, s.fl, s.di, g);
      FlagsKept(sys, h + 1, s.fl, s.di);
    }
  }

  /** After the call that follows a storage device every earlier group is closed. */
  lemma EarlierGroupsClosed(sys: System, s: State, g: nat, i: nat)
    requires WellFormed(sys) && Fits(sys, s.fl) && Present(sys, g, i) && At(sys, s, Stor(g, i))
    ensures forall h :: 0 <= h < g ==> DevEnum(sys, s).fl.ended[h]
  {
    TypeOf(sys, g, i);
    PassedGroupsEnd(sys, 0, s.fl, s.di, g);
  }

  /** A position in a listing: either the listing is that of a later position, or it has an
      entry here. */
  lemma ListingUnfolds(sys: System, g: nat, i: nat)
    requires g < |sys.groups| && i <= |sys.groups[g].devs|
    ensures var devs := sys.groups[g].devs;
            if i == |devs| || (devs[i] != NULL && !Active(sys, devs[i]))
            then Listing(sys, g, i) == Listing(sys, g + 1, 0)
            else if devs[i] == NULL then Listing(sys, g, i) == Listing(sys, g, i + 1)
            else Listing(sys, g, i) == [Stor(g, i)] + Listing(sys, g, i + 1)
  {
  }

  lemma TailOfCons(e: Entry, list: seq<Entry>, k: nat)
    requires k <= |list|
    ensures ([e] + list)[k + 1..] == list[k..]
  {
  }

  /** The rest of a listing after its k-th entry is the listing from the next position. */
  lemma {:induction false} ListingSuffix(sys: System, g: nat, i: nat, k: nat)
    requires g <= |sys.groups| && (g < |sys.groups| ==> i <= |sys.groups[g].devs|) && k < |Listing(sys, g, i)|
    ensures var e := Listing(sys, g, i)[k];
            && e.Stor?
            && Present(sys, e.g, e.i)
            && Active(sys, sys.groups[e.g].devs[e.i])
            && Listing(sys, g, i)[k + 1..] == Listing(sys, e.g, e.i + 1)
    decreases |sys.groups| - g, if g < |sys.groups| then |sys.groups[g].devs| - i else 0
  {
    ListingUnfolds(sys, g, i);
    var devs := sys.groups[g].devs;
    if i == |devs| || (devs[i] != NULL && !Active(sys, devs[i])) {
      ListingSuffix(sys, g + 1, 0, k);
    } else if devs[i] == NULL {
      ListingSuffix(sys, g, i + 1, k);
    } else {
      TailOfCons(Stor(g, i), Listing(sys, g, i + 1), k);
      if k > 0 {
        ListingSuffix(sys, g, i + 1, k - 1);
      }
    }
  }

  // ---------------------------------------------------------------- whole runs

  /** The k-th state of a complete run: entry k of the expected list, then the NULL answer. */
  ghost predicate OnSchedule(sys: System, s: State, k: nat)
    requires k <= |Expected(sys)|
  {
    Fits(sys, s.fl) &&
    if k == |Expected(sys)| then s.di.cookie == NULL
    else ValidEntry(sys, Expected(sys)[k]) && At(sys, s, Expected(sys)[k])
  }

  lemma RestartStep(sys: System, s: State)
    requires WellFormed(sys) && Fits(sys, s.fl) && s.di.cookie == NULL
    ensures OnSchedule(sys, DevEnum(sys, s), 0)
  {
    if sys.eth == NULL {
      assert Expected(sys) == Listing(sys, 0, 0);
      FreshGroups(sys, 0, Clear(|sys.groups|), s.di.(typ := DEV_TYP_NET, cookie := NULL));
    }
  }

  lemma ExpectedAt(sys: System, k: nat) returns (m: int)
    requires k < |Expected(sys)|
    ensures if sys.eth != NULL && k == 0 then m == -1 && Expected(sys)[k] == Net
            else 0 <= m < |Listing(sys, 0, 0)| && Expected(sys)[k] == Listing(sys, 0, 0)[m]
                 && m == (if sys.eth != NULL then k - 1 else k)
  {
    m := if sys.eth != NULL then k - 1 else k;
  }

  lemma AfterNet(sys: System, s: State)
    requires WellFormed(sys) && Fits(sys, s.fl) && At(sys, s, Net)
    ensures Answers(sys, EnumStorage(sys, 0, s.fl, s.di), Listing(sys, 0, 0))
  {
    forall h | 0 <= h < |sys.groups| ensures sys.eth !in sys.groups[h].devs {
      if sys.eth in sys.groups[h].devs {
        var j :| 0 <= j < |sys.groups[h].devs| && sys.groups[h].devs[j] == sys.eth;
        assert Present(sys, h, j);
      }
    }
    FreshGroups(sys, 0, s.fl, s.di);
  }

  /** What the groups answer after the k-th entry: the head of the rest of the list. */
  lemma Following(sys: System, s: State, k: nat) returns (rest: seq<Entry>)
    requires WellFormed(sys) && k < |Expected(sys)| && OnSchedule(sys, s, k)
    ensures Answers(sys, EnumStorage(sys, 0, s.fl, s.di), rest)
    ensures |rest| == |Expected(sys)| - (k + 1) && (rest != [] ==> rest[0] == Expected(sys)[k + 1])
  {
    var list := Listing(sys, 0, 0);
    var m := ExpectedAt(sys, k);
    if m < 0 {
      AfterNet(sys, s);
      rest := list;
    } else {
      ListingSuffix(sys, 0, 0, m);
      Resume(sys, 0, s.fl, s.di, list[m].g, list[m].i);
      rest := list[m + 1..];
    }
    if k + 1 < |Expected(sys)| {
      var m' := ExpectedAt(sys, k + 1);
    }
  }

  lemma ContinueStep(sys: System, s: State, k: nat)
    requires WellFormed(sys) && k < |Expected(sys)| && OnSchedule(sys, s, k)
    ensures OnSchedule(sys, DevEnum(sys, s), k + 1)
  {
    var rest := Following(sys, s, k);
    assert s.di.cookie != NULL;
  }

  /** The state after n calls, each given what the one before returned. */
  function Run(sys: System, s: State, n: nat): (r: State)
    requires Fits(sys, s.fl)
    ensures Fits(sys, r.fl)
  {
    if n == 0 then s else DevEnum(sys, Run(sys, s, n - 1))
  }

  /** MAIN RESULT: whole runs. Whatever the flags were, starting from a NULL cookie and feeding
      each answer back, call k + 1 returns the k-th expected device, and the call after the last
      device returns NULL. */
  lemma {:induction false} OnePass(sys: System, s: State, k: nat)
    requires WellFormed(sys) && Fits(sys, s.fl) && s.di.cookie == NULL && k <= |Expected(sys)|
    ensures OnSchedule(sys, Run(sys, s, k + 1), k)
  {
    var before := Run(sys, s, k);
    if k == 0 {
      RestartStep(sys, before);
    } else {
      OnePass(sys, s, k - 1);
      ContinueStep(sys, before, k - 1);
    }
  }

  /** The state after p passes, each run until it answers NULL. */
  function Passes(sys: System, s: State, p: nat): (r: State)
    requires Fits(sys, s.fl)
    ensures Fits(sys, r.fl)
  {
    if p == 0 then s else Run(sys, Passes(sys, s, p - 1), |Expected(sys)| + 1)
  }

  /** The same sequence repeats after every restart. */
  lemma {:induction false} EveryPass(sys: System, s: State, p: nat, k: nat)
    requires WellFormed(sys) && Fits(sys, s.fl) && s.di.cookie == NULL && k <= |Expected(sys)|
    ensures OnSchedule(sys, Run(sys, Passes(sys, s, p), k + 1), k)
    decreases p
  {
    if p > 0 {
      EveryPass(sys, s, p - 1, |Expected(sys)|);
    }
    OnePass(sys, Passes(sys, s, p), k);
  }

  // ---------------------------------------------------------------- what the list contains

  predicate Before(a: Entry, b: Entry) {
    match (a, b)
    case (Net, Stor(_, _)) => true
    case (Stor(g, i), Stor(h, j)) => g < h || (g == h && i < j)
    case _ => false
  }

  /** Every device listed comes at or after the position the listing starts from. */
  lemma {:induction false} ListingFrom(sys: System, g: nat, i: nat, k: nat)
    requires g <= |sys.groups| && (g < |sys.groups| ==> i <= |sys.groups[g].devs|) && k < |Listing(sys, g, i)|
    ensures var e := Listing(sys, g, i)[k];
            e.Stor? && (g < e.g || (g == e.g && i <= e.i))
    decreases |sys.groups| - g, if g < |sys.groups| then |sys.groups[g].devs| - i else 0
  {
    var devs := sys.groups[g].devs;
    if i == |devs| || (devs[i] != NULL && !Active(sys, devs[i])) {
      ListingFrom(sys, g + 1, 0, k);
    } else if devs[i] == NULL {
      ListingFrom(sys, g, i + 1, k);
    } else if k > 0 {
      ListingFrom(sys, g, i + 1, k - 1);
    }
  }

  lemma ListingIncreases(sys: System, j: nat, k: nat)
    requires j < k < |Listing(sys, 0, 0)|
    ensures Before(Listing(sys, 0, 0)[j], Listing(sys, 0, 0)[k])
  {
    var list := Listing(sys, 0, 0);
    ListingSuffix(sys, 0, 0, j);
    ListingSuffix(sys, 0, 0, k);
    assert list[k] == list[j + 1..][k - j - 1];
    ListingFrom(sys, list[j].g, list[j].i + 1, k - j - 1);
  }

  /** No device twice, for any mix of absent, inactive and active devices: a pass is strictly
      increasing in (group, index), with the network device first. */
  lemma PassIsStrictlyIncreasing(sys: System, j: nat, k: nat)
    requires j < k < |Expected(sys)|
    ensures Before(Expected(sys)[j], Expected(sys)[k])
  {
    var a := ExpectedAt(sys, j);
    var b := ExpectedAt(sys, k);
    ListingSuffix(sys, 0, 0, b);
    if a >= 0 {
      ListingIncreases(sys, a, b);
    }
  }

  /** Every storage device a pass returns is present and active. */
  lemma PassIsActive(sys: System, k: nat)
    requires k < |Expected(sys)| && Expected(sys)[k].Stor?
    ensures var e := Expected(sys)[k]; Present(sys, e.g, e.i) && sys.desc(sys.groups[e.g].devs[e.i]).typ != 0xff
  {
    var m := ExpectedAt(sys, k);
    ListingSuffix(sys, 0, 0, m);
  }

  /** Exactly which devices a pass returns: the present ones with no inactive device at or before
      them in their group. */
  lemma {:induction false} ListedIff(sys: System, g: nat, i: nat, h: nat, j: nat)
    requires g <= |sys.groups| && (g < |sys.groups| ==> i <= |sys.groups[g].devs|)
    requires g <= h && (g == h ==> i <= j)
    ensures Stor(h, j) in Listing(sys, g, i) <==>
              Present(sys, h, j) &&
              forall k :: (if g == h then i else 0) <= k <= j && sys.groups[h].devs[k] != NULL
                          ==> Active(sys, sys.groups[h].devs[k])
    decreases |sys.groups| - g, if g < |sys.groups| then |sys.groups[g].devs| - i else 0
  {
    if g < |sys.groups| {
      var devs := sys.groups[g].devs;
      if i == |devs| || (devs[i] != NULL && !Active(sys, devs[i])) {
        if h > g {
          ListedIff(sys, g + 1, 0, h, j);
        } else if Stor(h, j) in Listing(sys, g + 1, 0) {
          var k :| 0 <= k < |Listing(sys, g + 1, 0)| && Listing(sys, g + 1, 0)[k] == Stor(h, j);
          ListingFrom(sys, g + 1, 0, k);
        }
      } else if h > g || j > i {
        ListedIff(sys, g, i + 1, h, j);
      } else if devs[i] == NULL {
        if Stor(h, j) in Listing(sys, g, i + 1) {
          var k :| 0 <= k < |Listing(sys, g, i + 1)| && Listing(sys, g, i + 1)[k] == Stor(h, j);
          ListingFrom(sys, g, i + 1, k);
        }
      }
    }
  }

  /** When no present device is of unknown type, a pass returns all of them. */
  lemma AllListedWhenActive(sys: System, g: nat, i: nat)
    requires forall h, j :: Present(sys, h, j) ==> sys.desc(sys.groups[h].devs[j]).typ != 0xff
    ensures Stor(g, i) in Expected(sys) <==> Present(sys, g, i)
  {
    ListedIff(sys, 0, 0, g, i);
    var list := Listing(sys, 0, 0);
    assert Stor(g, i) in Expected(sys) <==> Stor(g, i) in list;
    if Present(sys, g, i) {
      forall k | 0 <= k <= i && sys.groups[g].devs[k] != NULL ensures Active(sys, sys.groups[g].devs[k]) {
        assert Present(sys, g, k);
      }
    }
  }
}
