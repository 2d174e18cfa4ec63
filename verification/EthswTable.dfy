/** The Ethernet switch command's keywords, its optional prefixes and its table of commands. */
module EthswTable {
  /** Keyword identifiers: the end mark, the named keywords in the order of their definitions, and
      the arguments recognised beside them. */
  datatype Keyword =
    | KeyEnd
    | Help | Show | Port | Enable | Disable | Statistics | Clear | Learning | Auto | Vlan | Fdb
    | Add | Del | Flush | Pvid | Untagged | All | None | Egress | Tag | Classified | Shared
    | Private | Ingress | Filtering | Aggr
    | PortNo | VlanNo | PvidNo | AddDelNo | AddDelMac | AggrNo

  /** The help functions of the table. */
  datatype Topic =
    | PortStatsHelp | LearnHelp | FdbHelp | PvidHelp | VlanHelp | PortUntagHelp
    | EgrTagHelp | VlanLearnHelp | IngrFltrHelp | PortAggrHelp

  /** The functions a switch driver may supply. */
  datatype Slot =
    | PortEnable | PortDisable | PortShow | PortStats | PortStatsClear | PortLearn
    | PortLearnShow | FdbShow | FdbFlush | FdbEntryAdd | FdbEntryDel | PvidShow | PvidSet
    | VlanShow | VlanSet | PortUntagShow | PortUntagSet | PortEgrVlanShow | PortEgrVlanSet
    | VlanLearnShow | VlanLearnSet | PortIngrFiltShow | PortIngrFiltSet | PortAggrShow
    | PortAggrSet

  datatype Target = Shows(topic: Topic) | Calls(slot: Slot)

  /** The keywords of a pattern up to its end mark. */
  datatype Pattern = Pattern(k0: Keyword, k1: Keyword, k2: Keyword, k3: Keyword)

  function KeyAt(p: Pattern, k: nat): Keyword {
    if k == 0 then p.k0 else if k == 1 then p.k1 else if k == 2 then p.k2 else if k == 3 then p.k3 else KeyEnd
  }

  function Length(p: Pattern): (n: nat)
    ensures n <= 4 && KeyAt(p, n) == KeyEnd && forall k: nat :: k < n ==> KeyAt(p, k) != KeyEnd
  {
    if p.k0 == KeyEnd then 0 else if p.k1 == KeyEnd then 1 else if p.k2 == KeyEnd then 2
        else if p.k3 == KeyEnd then 3 else 4
  }

  datatype Row = Row(pattern: Pattern, target: Target)

  function One(a: Keyword): Pattern { Pattern(a, KeyEnd, KeyEnd, KeyEnd) }

  function Two(a: Keyword, b: Keyword): Pattern { Pattern(a, b, KeyEnd, KeyEnd) }

  function Three(a: Keyword, b: Keyword, c: Keyword): Pattern { Pattern(a, b, c, KeyEnd) }

  const OPTIONS: nat := 4

  /** The optional prefixes: none, port, vlan, both. */
  function Option(o: nat): Pattern
    requires o < OPTIONS
  {
    match o
    case 0 => Pattern(KeyEnd, KeyEnd, KeyEnd, KeyEnd)
    case 1 => Two(Port, PortNo)
    case 2 => Two(Vlan, VlanNo)
    case _ => Pattern(Port, PortNo, Vlan, VlanNo)
  }

  const ROWS: nat := 51

  /** The command table. */
  function Table(r: nat): Row
    requires r < ROWS
  {
    match r
    case 0 => Row(One(Enable), Calls(PortEnable))
    case 1 => Row(One(Disable), Calls(PortDisable))
    case 2 => Row(One(Show), Calls(PortShow))
    case 3 => Row(Two(Statistics, Help), Shows(PortStatsHelp))
    case 4 => Row(One(Statistics), Calls(PortStats))
    case 5 => Row(Two(Statistics, Clear), Calls(PortStatsClear))
    case 6 => Row(One(Learning), Shows(LearnHelp))
    case 7 => Row(Two(Learning, Help), Shows(LearnHelp))
    case 8 => Row(Two(Learning, Show), Calls(PortLearnShow))
    case 9 => Row(Two(Learning, Auto), Calls(PortLearn))
    case 10 => Row(Two(Learning, Disable), Calls(PortLearn))
    case 11 => Row(One(Fdb), Shows(FdbHelp))
    case 12 => Row(Two(Fdb, Help), Shows(FdbHelp))
    case 13 => Row(Two(Fdb, Show), Calls(FdbShow))
    case 14 => Row(Two(Fdb, Flush), Calls(FdbFlush))
    case 15 => Row(Three(Fdb, Add, AddDelMac), Calls(FdbEntryAdd))
    case 16 => Row(Three(Fdb, Del, AddDelMac), Calls(FdbEntryDel))
    case 17 => Row(One(Pvid), Shows(PvidHelp))
    case 18 => Row(Two(Pvid, Help), Shows(PvidHelp))
    case 19 => Row(Two(Pvid, Show), Calls(PvidShow))
    case 20 => Row(Two(Pvid, PvidNo), Calls(PvidSet))
    case 21 => Row(One(Vlan), Shows(VlanHelp))
    case 22 => Row(Two(Vlan, Help), Shows(VlanHelp))
    case 23 => Row(Two(Vlan, Show), Calls(VlanShow))
    case 24 => Row(Three(Vlan, Add, AddDelNo), Calls(VlanSet))
    case 25 => Row(Three(Vlan, Del, AddDelNo), Calls(VlanSet))
    case 26 => Row(One(Untagged), Shows(PortUntagHelp))
    case 27 => Row(Two(Untagged, Help), Shows(PortUntagHelp))
    case 28 => Row(Two(Untagged, Show), Calls(PortUntagShow))
    case 29 => Row(Two(Untagged, All), Calls(PortUntagSet))
    case 30 => Row(Two(Untagged, None), Calls(PortUntagSet))
    case 31 => Row(Two(Untagged, Pvid), Calls(PortUntagSet))
    case 32 => Row(Two(Egress, Tag), Shows(EgrTagHelp))
    case 33 => Row(Three(Egress, Tag, Help), Shows(EgrTagHelp))
    case 34 => Row(Three(Egress, Tag, Show), Calls(PortEgrVlanShow))
    case 35 => Row(Three(Egress, Tag, Pvid), Calls(PortEgrVlanSet))
    case 36 => Row(Three(Egress, Tag, Classified), Calls(PortEgrVlanSet))
    case 37 => Row(Two(Vlan, Fdb), Shows(VlanLearnHelp))
    case 38 => Row(Three(Vlan, Fdb, Help), Shows(VlanLearnHelp))
    case 39 => Row(Three(Vlan, Fdb, Show), Calls(VlanLearnShow))
    case 40 => Row(Three(Vlan, Fdb, Shared), Calls(VlanLearnSet))
    case 41 => Row(Three(Vlan, Fdb, Private), Calls(VlanLearnSet))
    case 42 => Row(Two(Ingress, Filtering), Shows(IngrFltrHelp))
    case 43 => Row(Three(Ingress, Filtering, Help), Shows(IngrFltrHelp))
    case 44 => Row(Three(Ingress, Filtering, Show), Calls(PortIngrFiltShow))
    case 45 => Row(Three(Ingress, Filtering, Enable), Calls(PortIngrFiltSet))
    case 46 => Row(Three(Ingress, Filtering, Disable), Calls(PortIngrFiltSet))
    case 47 => Row(One(Aggr), Shows(PortAggrHelp))
    case 48 => Row(Two(Aggr, Help), Shows(PortAggrHelp))
    case 49 => Row(Two(Aggr, Show), Calls(PortAggrShow))
    case _ => Row(Two(Aggr, AggrNo), Calls(PortAggrSet))
  }

  /** Where a pattern stands in the table. */
  function RowOf(p: Pattern): nat {
    match p.k0
    case Enable => 0
    case Disable => 1
    case Show => 2
    case Statistics =>
      if p.k1 == Help then 3
      else if p.k1 == KeyEnd then 4
      else 5
    case Learning =>
      if p.k1 == KeyEnd then 6
      else if p.k1 == Help then 7
      else if p.k1 == Show then 8
      else if p.k1 == Auto then 9
      else 10
    case Fdb =>
      if p.k1 == KeyEnd then 11
      else if p.k1 == Help then 12
      else if p.k1 == Show then 13
      else if p.k1 == Flush then 14
      else if p.k1 == Add then 15
      else 16
    case Pvid =>
      if p.k1 == KeyEnd then 17
      else if p.k1 == Help then 18
      else if p.k1 == Show then 19
      else 20
    case Vlan =>
      if p.k1 == KeyEnd then 21
      else if p.k1 == Help then 22
      else if p.k1 == Show then 23
      else if p.k1 == Add then 24
      else if p.k1 == Del then 25
      else if p.k1 == Fdb && p.k2 == KeyEnd then 37
      else if p.k1 == Fdb && p.k2 == Help then 38
      else if p.k1 == Fdb && p.k2 == Show then 39
      else if p.k1 == Fdb && p.k2 == Shared then 40
      else 41
    case Untagged =>
      if p.k1 == KeyEnd then 26
      else if p.k1 == Help then 27
      else if p.k1 == Show then 28
      else if p.k1 == All then 29
      else if p.k1 == None then 30
      else 31
    case Egress =>
      if p.k1 == Tag && p.k2 == KeyEnd then 32
      else if p.k1 == Tag && p.k2 == Help then 33
      else if p.k1 == Tag && p.k2 == Show then 34
      else if p.k1 == Tag && p.k2 == Pvid then 35
      else 36
    case Ingress =>
      if p.k1 == Filtering && p.k2 == KeyEnd then 42
      else if p.k1 == Filtering && p.k2 == Help then 43
      else if p.k1 == Filtering && p.k2 == Show then 44
      else if p.k1 == Filtering && p.k2 == Enable then 45
      else 46
    case Aggr =>
      if p.k1 == KeyEnd then 47
      else if p.k1 == Help then 48
      else if p.k1 == Show then 49
      else 50
    case _ => 0
  }

  /** One to three keywords, ended by the first end mark. */
  predicate Canonical(p: Pattern) {
    p.k3 == KeyEnd && (p.k1 == KeyEnd ==> p.k2 == KeyEnd) && p.k0 != KeyEnd
  }

  lemma RowsTo9(r: nat)
    requires r < 9
    ensures RowOf(Table(r).pattern) == r && Canonical(Table(r).pattern)
  {
  }

  lemma RowsTo17(r: nat)
    requires 9 <= r < 17
    ensures RowOf(Table(r).pattern) == r && Canonical(Table(r).pattern)
  {
  }

  lemma RowsTo26(r: nat)
    requires 17 <= r < 26
    ensures RowOf(Table(r).pattern) == r && Canonical(Table(r).pattern)
  {
  }

  lemma RowsTo34(r: nat)
    requires 26 <= r < 34
    ensures RowOf(Table(r).pattern) == r && Canonical(Table(r).pattern)
  {
  }

  lemma RowsTo43(r: nat)
    requires 34 <= r < 43
    ensures RowOf(Table(r).pattern) == r && Canonical(Table(r).pattern)
  {
  }

  lemma RowsToEnd(r: nat)
    requires 43 <= r < ROWS
    ensures RowOf(Table(r).pattern) == r && Canonical(Table(r).pattern)
  {
  }

  /** No command stands in the table twice. */
  lemma RowsDistinct(r: nat)
    requires r < ROWS
    ensures RowOf(Table(r).pattern) == r && Canonical(Table(r).pattern)
  {
    if r < 9 {
      RowsTo9(r);
    } else if r < 17 {
      RowsTo17(r);
    } else if r < 26 {
      RowsTo26(r);
    } else if r < 34 {
      RowsTo34(r);
    } else if r < 43 {
      RowsTo43(r);
    } else {
      RowsToEnd(r);
    }
  }

  /** A command: canonical, and not starting like an optional prefix. */
  predicate IsCommand(p: Pattern) {
    Canonical(p) && p.k0 != Port && !(p.k0 == Vlan && p.k1 == VlanNo)
  }

  ghost predicate Unambiguous(table: seq<Pattern>) {
    && (forall r :: 0 <= r < |table| ==> IsCommand(table[r]))
    && (forall r, q :: 0 <= r < |table| && 0 <= q < |table| && table[r] == table[q] ==> r == q)
  }

  /** The patterns of the table. */
  function Commands(): (t: seq<Pattern>)
    ensures |t| == ROWS && forall r :: 0 <= r < ROWS ==> t[r] == Table(r).pattern
  {
    seq(ROWS, r requires 0 <= r < ROWS => Table(r).pattern)
  }

  lemma RowIsCommand(r: nat)
    requires r < ROWS
    ensures IsCommand(Table(r).pattern)
  {
    RowsDistinct(r);
  }

  /** No command of the table is empty, starts like an optional prefix, or stands there twice. */
  lemma TableIsUnambiguous()
    ensures Unambiguous(Commands())
  {
    var t := Commands();
    forall r | 0 <= r < ROWS ensures IsCommand(t[r]) && RowOf(t[r]) == r {
      RowIsCommand(r);
      RowsDistinct(r);
    }
  }

  const NAMES: nat := 26

  /** The named keywords by index. */
  function Name(j: nat): Keyword
    requires j < NAMES
  {
    match j
    case 0 => Help
    case 1 => Show
    case 2 => Port
    case 3 => Enable
    case 4 => Disable
    case 5 => Statistics
    case 6 => Clear
    case 7 => Learning
    case 8 => Auto
    case 9 => Vlan
    case 10 => Fdb
    case 11 => Add
    case 12 => Del
    case 13 => Flush
    case 14 => Pvid
    case 15 => Untagged
    case 16 => All
    case 17 => None
    case 18 => Egress
    case 19 => Tag
    case 20 => Classified
    case 21 => Shared
    case 22 => Private
    case 23 => Ingress
    case 24 => Filtering
    case _ => Aggr
  }

  /** The index of a named keyword; NAMES for the end mark and the arguments. */
  function IndexOf(k: Keyword): (j: nat)
    ensures j <= NAMES
  {
    match k
    case Help => 0
    case Show => 1
    case Port => 2
    case Enable => 3
    case Disable => 4
    case Statistics => 5
    case Clear => 6
    case Learning => 7
    case Auto => 8
    case Vlan => 9
    case Fdb => 10
    case Add => 11
    case Del => 12
    case Flush => 13
    case Pvid => 14
    case Untagged => 15
    case All => 16
    case None => 17
    case Egress => 18
    case Tag => 19
    case Classified => 20
    case Shared => 21
    case Private => 22
    case Ingress => 23
    case Filtering => 24
    case Aggr => 25
    case _ => NAMES
  }

  lemma IndexOfName(j: nat)
    requires j < NAMES
    ensures IndexOf(Name(j)) == j
  {
  }

  lemma NameAtIndex(k: Keyword)
    requires IndexOf(k) < NAMES
    ensures Name(IndexOf(k)) == k
  {
  }

  lemma NameOfIndex(j: nat, k: Keyword)
    requires j < NAMES
    ensures Name(j) == k <==> IndexOf(k) == j
  {
    IndexOfName(j);
    if IndexOf(k) == j {
      NameAtIndex(k);
    }
  }
}
