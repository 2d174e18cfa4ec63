/** The switch command as its help texts describe it: subjects, what each of them offers, and the driver
    function or help text that stands behind it. */
module EthswMeaning {
  import opened EthswTable
  import opened EthswWords
  import opened EthswParse

  /** What a command is about, one for each help text. */
  datatype Subject =
    | Ports | Counters | AddressLearning | Addresses | PortVlan | Members | Untagging | EgressTagging
    | LearningMode | IngressFilter | Aggregation

  /** What may be said of a subject; KeyEnd stands for nothing more than its name. */
  predicate Offers(s: Subject, a: Keyword) {
    match s
    case Ports => a == Enable || a == Disable || a == Show
    case Counters => a == KeyEnd || a == Help || a == Clear
    case AddressLearning => a == KeyEnd || a == Help || a == Show || a == Auto || a == Disable
    case Addresses => a == KeyEnd || a == Help || a == Show || a == Flush || a == Add || a == Del
    case PortVlan => a == KeyEnd || a == Help || a == Show || a == PvidNo
    case Members => a == KeyEnd || a == Help || a == Show || a == Add || a == Del
    case Untagging => a == KeyEnd || a == Help || a == Show || a == All || a == None || a == Pvid
    case EgressTagging => a == KeyEnd || a == Help || a == Show || a == Pvid || a == Classified
    case LearningMode => a == KeyEnd || a == Help || a == Show || a == Shared || a == Private
    case IngressFilter => a == KeyEnd || a == Help || a == Show || a == Enable || a == Disable
    case Aggregation => a == KeyEnd || a == Help || a == Show || a == AggrNo
  }

  /** The words for it; adding and deleting take an address or a number. */
  function Phrase(s: Subject, a: Keyword): Pattern {
    match s
    case Ports => One(a)
    case Counters => Two(Statistics, a)
    case AddressLearning => Two(Learning, a)
    case Addresses => Three(Fdb, a, if a == Add || a == Del then AddDelMac else KeyEnd)
    case PortVlan => Two(Pvid, a)
    case Members => Three(Vlan, a, if a == Add || a == Del then AddDelNo else KeyEnd)
    case Untagging => Two(Untagged, a)
    case EgressTagging => Three(Egress, Tag, a)
    case LearningMode => Three(Vlan, Fdb, a)
    case IngressFilter => Three(Ingress, Filtering, a)
    case Aggregation => Two(Aggr, a)
  }

  function HelpOn(s: Subject): Topic {
    match s
    case Counters => PortStatsHelp
    case AddressLearning => LearnHelp
    case Addresses => FdbHelp
    case PortVlan => PvidHelp
    case Members => VlanHelp
    case Untagging => PortUntagHelp
    case EgressTagging => EgrTagHelp
    case LearningMode => VlanLearnHelp
    case IngressFilter => IngrFltrHelp
    case _ => PortAggrHelp
  }

  function Showing(s: Subject): Slot {
    match s
    case Ports => PortShow
    case Counters => PortStats
    case AddressLearning => PortLearnShow
    case Addresses => FdbShow
    case PortVlan => PvidShow
    case Members => VlanShow
    case Untagging => PortUntagShow
    case EgressTagging => PortEgrVlanShow
    case LearningMode => VlanLearnShow
    case IngressFilter => PortIngrFiltShow
    case Aggregation => PortAggrShow
  }

  function Changing(s: Subject, a: Keyword): Slot {
    match s
    case Ports => if a == Enable then PortEnable else PortDisable
    case Counters => PortStatsClear
    case AddressLearning => PortLearn
    case Addresses => if a == Flush then FdbFlush else if a == Add then FdbEntryAdd else FdbEntryDel
    case PortVlan => PvidSet
    case Members => VlanSet
    case Untagging => PortUntagSet
    case EgressTagging => PortEgrVlanSet
    case LearningMode => VlanLearnSet
    case IngressFilter => PortIngrFiltSet
    case Aggregation => PortAggrSet
  }

  /** Showing is asked for by "show", of the counters by their name alone; help by "help" and, of all other
      subjects, by the name alone; everything else changes something. */
  function Effect(s: Subject, a: Keyword): Target {
    if a == Show || (s == Counters && a == KeyEnd) then Calls(Showing(s))
    else if a == Help || a == KeyEnd then Shows(HelpOn(s))
    else Calls(Changing(s, a))
  }

  /** Row r is what is offered of a subject, with the function that goes with it. */
  predicate RowSays(r: nat, s: Subject, a: Keyword) {
    r < ROWS && Offers(s, a) && Table(r) == Row(Phrase(s, a), Effect(s, a))
  }

  lemma PortRow(r: nat) returns (a: Keyword)
    requires r < 3
    ensures RowSays(r, Ports, a)
  {
    a := if r == 0 then Enable else if r == 1 then Disable else Show;
  }

  lemma PortCommand(a: Keyword) returns (r: nat)
    requires Offers(Ports, a)
    ensures RowSays(r, Ports, a)
  {
    r := if a == Enable then 0 else if a == Disable then 1 else 2;
    var b := PortRow(r);
    assert b == a;
  }

  lemma CounterRow(r: nat) returns (a: Keyword)
    requires 3 <= r < 6
    ensures RowSays(r, Counters, a)
  {
    a := if r == 3 then Help else if r == 4 then KeyEnd else Clear;
  }

  lemma CounterCommand(a: Keyword) returns (r: nat)
    requires Offers(Counters, a)
    ensures RowSays(r, Counters, a)
  {
    r := if a == Help then 3 else if a == KeyEnd then 4 else 5;
    var b := CounterRow(r);
    assert b == a;
  }

  lemma LearningRow(r: nat) returns (a: Keyword)
    requires 6 <= r < 11
    ensures RowSays(r, AddressLearning, a)
  {
    a := if r == 6 then KeyEnd else if r == 7 then Help else if r == 8 then Show else if r == 9 then Auto else Disable;
  }

  lemma LearningCommand(a: Keyword) returns (r: nat)
    requires Offers(AddressLearning, a)
    ensures RowSays(r, AddressLearning, a)
  {
    r := if a == KeyEnd then 6 else if a == Help then 7 else if a == Show then 8 else if a == Auto then 9 else 10;
    var b := LearningRow(r);
    assert b == a;
  }

  lemma FdbRow(r: nat) returns (a: Keyword)
    requires 11 <= r < 17
    ensures RowSays(r, Addresses, a)
  {
    a := if r == 11 then KeyEnd else if r == 12 then Help else if r == 13 then Show else if r == 14 then Flush
         else if r == 15 then Add else Del;
  }

  lemma FdbCommand(a: Keyword) returns (r: nat)
    requires Offers(Addresses, a)
    ensures RowSays(r, Addresses, a)
  {
    r := if a == KeyEnd then 11 else if a == Help then 12 else if a == Show then 13 else if a == Flush then 14
         else if a == Add then 15 else 16;
    var b := FdbRow(r);
    assert b == a;
  }

  lemma PvidRow(r: nat) returns (a: Keyword)
    requires 17 <= r < 21
    ensures RowSays(r, PortVlan, a)
  {
    a := if r == 17 then KeyEnd else if r == 18 then Help else if r == 19 then Show else PvidNo;
  }

  lemma PvidCommand(a: Keyword) returns (r: nat)
    requires Offers(PortVlan, a)
    ensures RowSays(r, PortVlan, a)
  {
    r := if a == KeyEnd then 17 else if a == Help then 18 else if a == Show then 19 else 20;
    var b := PvidRow(r);
    assert b == a;
  }

  lemma MemberRow(r: nat) returns (a: Keyword)
    requires 21 <= r < 26
    ensures RowSays(r, Members, a)
  {
    a := if r == 21 then KeyEnd else if r == 22 then Help else if r == 23 then Show else if r == 24 then Add else Del;
  }

  lemma MemberCommand(a: Keyword) returns (r: nat)
    requires Offers(Members, a)
    ensures RowSays(r, Members, a)
  {
    r := if a == KeyEnd then 21 else if a == Help then 22 else if a == Show then 23 else if a == Add then 24 else 25;
    var b := MemberRow(r);
    assert b == a;
  }

  lemma UntaggedRow(r: nat) returns (a: Keyword)
    requires 26 <= r < 32
    ensures RowSays(r, Untagging, a)
  {
    a := if r == 26 then KeyEnd else if r == 27 then Help else if r == 28 then Show else if r == 29 then All
         else if r == 30 then None else Pvid;
  }

  lemma UntaggedCommand(a: Keyword) returns (r: nat)
    requires Offers(Untagging, a)
    ensures RowSays(r, Untagging, a)
  {
    r := if a == KeyEnd then 26 else if a == Help then 27 else if a == Show then 28 else if a == All then 29
         else if a == None then 30 else 31;
    var b := UntaggedRow(r);
    assert b == a;
  }

  lemma EgressRow(r: nat) returns (a: Keyword)
    requires 32 <= r < 37
    ensures RowSays(r, EgressTagging, a)
  {
    a := if r == 32 then KeyEnd else if r == 33 then Help else if r == 34 then Show else if r == 35 then Pvid
         else Classified;
  }

  lemma EgressCommand(a: Keyword) returns (r: nat)
    requires Offers(EgressTagging, a)
    ensures RowSays(r, EgressTagging, a)
  {
    r := if a == KeyEnd then 32 else if a == Help then 33 else if a == Show then 34 else if a == Pvid then 35 else 36;
    var b := EgressRow(r);
    assert b == a;
  }

  lemma VlanFdbRow(r: nat) returns (a: Keyword)
    requires 37 <= r < 42
    ensures RowSays(r, LearningMode, a)
  {
    a := if r == 37 then KeyEnd else if r == 38 then Help else if r == 39 then Show
         else if r == 40 then Shared else Private;
  }

  lemma VlanFdbCommand(a: Keyword) returns (r: nat)
    requires Offers(LearningMode, a)
    ensures RowSays(r, LearningMode, a)
  {
    r := if a == KeyEnd then 37 else if a == Help then 38 else if a == Show then 39
         else if a == Shared then 40 else 41;
    var b := VlanFdbRow(r);
    assert b == a;
  }

  lemma IngressRow(r: nat) returns (a: Keyword)
    requires 42 <= r < 47
    ensures RowSays(r, IngressFilter, a)
  {
    a := if r == 42 then KeyEnd else if r == 43 then Help else if r == 44 then Show
         else if r == 45 then Enable else Disable;
  }

  lemma IngressCommand(a: Keyword) returns (r: nat)
    requires Offers(IngressFilter, a)
    ensures RowSays(r, IngressFilter, a)
  {
    r := if a == KeyEnd then 42 else if a == Help then 43 else if a == Show then 44
         else if a == Enable then 45 else 46;
    var b := IngressRow(r);
    assert b == a;
  }

  lemma AggrRow(r: nat) returns (a: Keyword)
    requires 47 <= r < ROWS
    ensures RowSays(r, Aggregation, a)
  {
    a := if r == 47 then KeyEnd else if r == 48 then Help else if r == 49 then Show else AggrNo;
  }

  lemma AggrCommand(a: Keyword) returns (r: nat)
    requires Offers(Aggregation, a)
    ensures RowSays(r, Aggregation, a)
  {
    r := if a == KeyEnd then 47 else if a == Help then 48 else if a == Show then 49 else 50;
    var b := AggrRow(r);
    assert b == a;
  }

  /** Every row of the table is something a help text offers, and has the function that goes with it. */
  lemma RowIsOffered(r: nat) returns (s: Subject, a: Keyword)
    requires r < ROWS
    ensures RowSays(r, s, a)
  {
    if r < 3 {
      s := Ports;
      a := PortRow(r);
    } else if r < 6 {
      s := Counters;
      a := CounterRow(r);
    } else if r < 11 {
      s := AddressLearning;
      a := LearningRow(r);
    } else if r < 17 {
      s := Addresses;
      a := FdbRow(r);
    } else if r < 21 {
      s := PortVlan;
      a := PvidRow(r);
    } else if r < 26 {
      s := Members;
      a := MemberRow(r);
    } else if r < 32 {
      s := Untagging;
      a := UntaggedRow(r);
    } else if r < 37 {
      s := EgressTagging;
      a := EgressRow(r);
    } else if r < 42 {
      s := LearningMode;
      a := VlanFdbRow(r);
    } else if r < 47 {
      s := IngressFilter;
      a := IngressRow(r);
    } else {
      s := Aggregation;
      a := AggrRow(r);
    }
  }

  /** Whatever a help text offers has a row, with the function that goes with it. */
  lemma OfferHasRow(s: Subject, a: Keyword) returns (r: nat)
    requires Offers(s, a)
    ensures RowSays(r, s, a)
  {
    match s
    case Ports => r := PortCommand(a);
    case Counters => r := CounterCommand(a);
    case AddressLearning => r := LearningCommand(a);
    case Addresses => r := FdbCommand(a);
    case PortVlan => r := PvidCommand(a);
    case Members => r := MemberCommand(a);
    case Untagging => r := UntaggedCommand(a);
    case EgressTagging => r := EgressCommand(a);
    case LearningMode => r := VlanFdbCommand(a);
    case IngressFilter => r := IngressCommand(a);
    case Aggregation => r := AggrCommand(a);
  }

  // ---------------------------------------------------------------- whole commands

  /** In front of a command a port may be named, and behind that a VLAN. */
  function Prefix(port: bool, vlan: bool): Pattern {
    if port && vlan then Pattern(Port, PortNo, Vlan, VlanNo)
    else if port then Two(Port, PortNo)
    else if vlan then Two(Vlan, VlanNo)
    else One(KeyEnd)
  }

  /** Behind the command's name the identifiers are a prefix and a phrase, and nothing else. */
  predicate Speaks(ids: seq<Keyword>, port: bool, vlan: bool, s: Subject, a: Keyword) {
    && Offers(s, a)
    && Occurs(ids, 1, Prefix(port, vlan))
    && Occurs(ids, 1 + Length(Prefix(port, vlan)), Phrase(s, a))
    && 1 + Length(Prefix(port, vlan)) + Length(Phrase(s, a)) == |ids|
  }

  /** What a function table holds for a phrase after one driver has registered. */
  function Handles(s: Subject, a: Keyword, driver: Slot -> Handler): Handler {
    match Effect(s, a) case Shows(topic) => Helps(topic) case Calls(slot) => driver(slot)
  }

  lemma RegisteredRow(r: nat, s: Subject, a: Keyword, driver: Slot -> Handler)
    requires RowSays(r, s, a)
    ensures Registered(Initial()[r], r, driver) == Handles(s, a, driver)
  {
  }

  lemma PrefixIsOption(port: bool, vlan: bool) returns (o: nat)
    ensures o < OPTIONS && Option(o) == Prefix(port, vlan)
  {
    o := if port && vlan then 3 else if port then 1 else if vlan then 2 else 0;
  }

  lemma OptionIsPrefix(o: nat) returns (port: bool, vlan: bool)
    requires o < OPTIONS
    ensures Option(o) == Prefix(port, vlan)
  {
    port, vlan := o == 1 || o == 3, o >= 2;
  }

  /** MAIN RESULT on the table: the commands that are recognised are the prefixes followed by what the help texts
      offer; and after a driver has registered, the function of such a command is the help text or the
      driver's function for that subject and action. */
  lemma SpokenIsSplit(ids: seq<Keyword>, port: bool, vlan: bool, s: Subject, a: Keyword, driver: Slot -> Handler)
    returns (o: nat, r: nat)
    requires Speaks(ids, port, vlan, s, a)
    ensures Splits(Commands(), ids, o, r) && Registered(Initial()[r], r, driver) == Handles(s, a, driver)
  {
    o := PrefixIsOption(port, vlan);
    r := OfferHasRow(s, a);
    RegisteredRow(r, s, a, driver);
  }

  lemma SplitIsSpoken(ids: seq<Keyword>, o: nat, r: nat, driver: Slot -> Handler)
    returns (port: bool, vlan: bool, s: Subject, a: Keyword)
    requires Splits(Commands(), ids, o, r)
    ensures Speaks(ids, port, vlan, s, a) && Registered(Initial()[r], r, driver) == Handles(s, a, driver)
  {
    port, vlan := OptionIsPrefix(o);
    s, a := RowIsOffered(r);
    RegisteredRow(r, s, a, driver);
  }

  lemma HelpIsThere(r: nat)
    requires r < ROWS && Table(r).target.Shows?
    ensures Initial()[r] != Null
  {
  }

  /** The functions after one driver has registered. */
  ghost predicate RegisteredWith(functions: seq<Handler>, driver: Slot -> Handler) {
    |functions| == ROWS && forall r :: 0 <= r < ROWS ==> functions[r] == Registered(Initial()[r], r, driver)
  }

  method RegisterOne(driver: Slot -> Handler) returns (functions: seq<Handler>)
    ensures RegisteredWith(functions, driver)
  {
    var initial := Initial();
    var table := new Handler[ROWS](r requires 0 <= r < ROWS => initial[r]);
    forall r | 0 <= r < ROWS && Table(r).target.Shows? ensures table[r] != Null {
      HelpIsThere(r);
    }
    var rc := DefineFunctions(table, true, driver);
    functions := table[..];
  }

  /** From the words to the driver: with one driver registered, a command calls the function of its subject and
      action, and words that are no command call nothing. */
  method RegisteredCommand(words: seq<Word>, driver: Slot -> Handler) returns (called: Handler)
    requires 2 <= |words| < MAX_PARAMS
    ensures forall port, vlan, s, a :: Speaks(Sentence(words), port, vlan, s, a) ==> called == Handles(s, a, driver)
    ensures (forall port, vlan, s, a :: !Speaks(Sentence(words), port, vlan, s, a)) ==> called == Null
  {
    var functions := RegisterOne(driver);
    var rc;
    rc, called := DoEthsw(words, functions);
    forall port, vlan, s, a | Speaks(Sentence(words), port, vlan, s, a) ensures called == Handles(s, a, driver) {
      var o, r := SpokenIsSplit(Sentence(words), port, vlan, s, a, driver);
      assert functions[r] == Handles(s, a, driver);
    }
    if called != Null {
      var o: nat, r: nat :| Splits(Commands(), Sentence(words), o, r) && functions[r] != Null;
      var port, vlan, s, a := SplitIsSpoken(Sentence(words), o, r, driver);
    }
  }
}
