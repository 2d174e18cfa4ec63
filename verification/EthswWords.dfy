/** Recognising the words of an Ethernet switch command: what each matcher writes, and the keyword
    every word ends up with. */
module EthswWords {
  import opened EthswTable

  /** A word as the matchers see it: a keyword's name, a decimal number, a MAC address, or anything else. */
  datatype Word = Named(k: Keyword) | Number | Mac(broadcast: bool) | Other

  /** The identifiers written so far, the word being matched, and whether an address has been stored. */
  datatype Scan = Scan(ids: seq<Keyword>, i: nat, mac: bool)

  // ---------------------------------------------------------------- the matchers

  function MatchGen(k: Keyword, words: seq<Word>, s: Scan): (Scan, bool)
    requires s.i < |words| <= |s.ids|
  {
    if words[s.i] == Named(k) then (s.(ids := s.ids[s.i := k]), true) else (s, false)
  }

  function MatchPort(words: seq<Word>, s: Scan): (Scan, bool)
    requires s.i < |words| <= |s.ids|
  {
    var (t, m) := MatchGen(Port, words, s);
    if !m || t.i + 1 >= |words| || words[t.i + 1] != Number then (t, false)
    else (Scan(t.ids[t.i + 1 := PortNo], t.i + 1, t.mac), true)
  }

  function MatchVlan(words: seq<Word>, s: Scan): (Scan, bool)
    requires s.i < |words| <= |s.ids|
  {
    var (t, m) := MatchGen(Vlan, words, s);
    if !m || t.i + 1 >= |words| then (t, false)
    else if words[t.i + 1] == Number then (Scan(t.ids[t.i + 1 := VlanNo], t.i + 1, t.mac), true)
    else if words[t.i + 1] != Named(Add) && words[t.i + 1] != Named(Del) then (t, false)
    else
      var u := t.(ids := t.ids[t.i + 1 := words[t.i + 1].k]);
      if u.i + 2 >= |words| || words[u.i + 2] != Number then (u, false)
      else (Scan(u.ids[u.i + 2 := AddDelNo], u.i + 2, u.mac), true)
  }

  /** pvid and aggr take a number if one follows. */
  function MatchNumbered(k: Keyword, number: Keyword, words: seq<Word>, s: Scan): (Scan, bool)
    requires s.i < |words| <= |s.ids|
  {
    var (t, m) := MatchGen(k, words, s);
    if !m || t.i + 1 >= |words| || words[t.i + 1] != Number then (t, m)
    else (Scan(t.ids[t.i + 1 := number], t.i + 1, t.mac), true)
  }

  /** add and del take the first address of the command. */
  function MatchMac(k: Keyword, words: seq<Word>, s: Scan): (Scan, bool)
    requires s.i < |words| <= |s.ids|
  {
    var (t, m) := MatchGen(k, words, s);
    if !m || t.i + 1 >= |words| || t.mac then (t, m)
    else if words[t.i + 1] != Mac(false) then (t, false)
    else (Scan(t.ids[t.i + 1 := AddDelMac], t.i, true), true)
  }

  function Match(k: Keyword, words: seq<Word>, s: Scan): (r: (Scan, bool))
    requires s.i < |words| <= |s.ids|
    ensures |r.0.ids| == |s.ids| && s.i <= r.0.i < |words|
    ensures !r.1 ==> r.0.i == s.i
    ensures words[s.i] != Named(k) ==> r == (s, false)
  {
    match k
    case Port => MatchPort(words, s)
    case Vlan => MatchVlan(words, s)
    case Pvid => MatchNumbered(Pvid, PvidNo, words, s)
    case Aggr => MatchNumbered(Aggr, AggrNo, words, s)
    case Add => MatchMac(Add, words, s)
    case Del => MatchMac(Del, words, s)
    case _ => MatchGen(k, words, s)
  }

  // ---------------------------------------------------------------- what each word means

  predicate IsName(words: seq<Word>, p: int) {
    1 <= p < |words| && words[p].Named? && IndexOf(words[p].k) < NAMES
  }

  predicate Says(words: seq<Word>, p: int, k: Keyword) {
    1 <= p < |words| && words[p] == Named(k)
  }

  predicate AddsOrDeletes(words: seq<Word>, p: int) {
    Says(words, p, Add) || Says(words, p, Del)
  }

  predicate IsNumber(words: seq<Word>, p: int) {
    1 <= p < |words| && words[p] == Number
  }

  /** An address that add or del could take. */
  predicate AddressAt(words: seq<Word>, p: int) {
    1 <= p < |words| && words[p] == Mac(false) && AddsOrDeletes(words, p - 1)
  }

  predicate AddressBy(words: seq<Word>, n: nat) {
    AddressAt(words, n) || (n > 0 && AddressBy(words, n - 1))
  }

  /** The keyword of a word depends on it and on the two before it, except that only the first
      address counts. */
  function Recognised(words: seq<Word>, p: int): Keyword
    requires 1 <= p < |words|
  {
    match words[p]
    case Named(k) => if IndexOf(k) < NAMES then k else KeyEnd
    case Number =>
      if Says(words, p - 1, Port) then PortNo
      else if Says(words, p - 1, Vlan) then VlanNo
      else if Says(words, p - 1, Pvid) then PvidNo
      else if Says(words, p - 1, Aggr) then AggrNo
      else if AddsOrDeletes(words, p - 1) && Says(words, p - 2, Vlan) then AddDelNo
      else KeyEnd
    case Mac(broadcast) => if AddressAt(words, p) && !AddressBy(words, p - 1) then AddDelMac else KeyEnd
    case Other => KeyEnd
  }

  /** Every word before i has its keyword, every later one has it or nothing yet. */
  ghost predicate Written(words: seq<Word>, ids: seq<Keyword>, i: nat) {
    && |words| <= |ids|
    && forall p: int :: 1 <= p < |words| ==> ids[p] == Recognised(words, p) || (ids[p] == KeyEnd && i <= p)
  }

  lemma WriteKeeps(words: seq<Word>, ids: seq<Keyword>, i: nat, p: nat, k: Keyword)
    requires Written(words, ids, i) && 1 <= p < |words| && k == Recognised(words, p)
    ensures Written(words, ids[p := k], i)
  {
  }

  lemma Advance(words: seq<Word>, ids: seq<Keyword>, i: nat)
    requires Written(words, ids, i) && 1 <= i < |words| && ids[i] == Recognised(words, i)
    ensures Written(words, ids, i + 1)
  {
  }

  /** The loop of keywords_find over the words. */
  ghost predicate Scanning(words: seq<Word>, s: Scan) {
    && 1 <= s.i <= |words| && Written(words, s.ids, s.i)
    && (s.i < |words| && !IsName(words, s.i) ==> s.ids[s.i] == Recognised(words, s.i))
    && (s.mac <==> AddressBy(words, s.i))
    && !(Says(words, s.i - 1, Vlan) && AddsOrDeletes(words, s.i) && IsNumber(words, s.i + 1))
  }

  lemma ScanStarts(words: seq<Word>, ids: seq<Keyword>)
    requires 1 <= |words| <= |ids| && forall p: int :: 0 <= p < |ids| ==> ids[p] == KeyEnd
    ensures Scanning(words, Scan(ids, 1, false))
  {
    assert !AddressBy(words, 0) && !AddressAt(words, 1);
  }

  /** The word at s.i after the loop over the keywords. */
  function Visit(words: seq<Word>, s: Scan): (t: Scan)
    requires 1 <= s.i < |words| <= |s.ids|
    ensures |t.ids| == |s.ids| && s.i < t.i <= |words|
  {
    var t := if IsName(words, s.i) then Match(words[s.i].k, words, s).0 else s;
    t.(i := t.i + 1)
  }

  // ---------------------------------------------------------------- what one visit does

  /** A keyword that takes nothing from the words behind it. */
  predicate Alone(words: seq<Word>, s: Scan) {
    && IsName(words, s.i)
    && !(words[s.i].k in {Port, Vlan, Pvid, Aggr} && IsNumber(words, s.i + 1))
    && !(Says(words, s.i, Vlan) && AddsOrDeletes(words, s.i + 1))
    && !(AddressAt(words, s.i + 1) && !s.mac)
  }

  /** A keyword that takes the number behind it. */
  predicate Paired(words: seq<Word>, s: Scan, k: Keyword, number: Keyword) {
    && Says(words, s.i, k) && IsNumber(words, s.i + 1)
    && (k, number) in {(Port, PortNo), (Vlan, VlanNo), (Pvid, PvidNo), (Aggr, AggrNo)}
  }

  lemma AloneResult(words: seq<Word>, s: Scan)
    requires |words| <= |s.ids| && Alone(words, s)
    ensures Visit(words, s) == Scan(s.ids[s.i := words[s.i].k], s.i + 1, s.mac)
  {
    var k := words[s.i].k;
    match k
    case Port => assert !IsNumber(words, s.i + 1);
    case Vlan => assert !IsNumber(words, s.i + 1);
    case Pvid => assert !IsNumber(words, s.i + 1);
    case Aggr => assert !IsNumber(words, s.i + 1);
    case _ =>
  }

  lemma PairedResult(words: seq<Word>, s: Scan, k: Keyword, number: Keyword)
    requires |words| <= |s.ids| && Paired(words, s, k, number)
    ensures Visit(words, s) == Scan(s.ids[s.i := k][s.i + 1 := number], s.i + 2, s.mac)
  {
  }

  lemma VlanResult(words: seq<Word>, s: Scan)
    requires |words| <= |s.ids| && Says(words, s.i, Vlan) && AddsOrDeletes(words, s.i + 1)
    ensures var ids := s.ids[s.i := Vlan][s.i + 1 := words[s.i + 1].k];
            Visit(words, s) == if IsNumber(words, s.i + 2) then Scan(ids[s.i + 2 := AddDelNo], s.i + 3, s.mac)
                else Scan(ids, s.i + 1, s.mac)
  {
  }

  lemma AddressResult(words: seq<Word>, s: Scan)
    requires |words| <= |s.ids| && AddressAt(words, s.i + 1) && s.i >= 1 && !s.mac
    ensures Visit(words, s) == Scan(s.ids[s.i := words[s.i].k][s.i + 1 := AddDelMac], s.i + 1, true)
  {
  }

  // ---------------------------------------------------------------- the invariant behind it

  /** Writing the identifier of the current word. */
  lemma NameWritten(words: seq<Word>, s: Scan) returns (ids: seq<Keyword>)
    requires Scanning(words, s) && IsName(words, s.i)
    ensures ids == s.ids[s.i := words[s.i].k] && Written(words, ids, s.i + 1)
    ensures s.i + 1 < |words| ==> ids[s.i + 1] == KeyEnd || ids[s.i + 1] == Recognised(words, s.i + 1)
  {
    ids := s.ids[s.i := words[s.i].k];
    WriteKeeps(words, s.ids, s.i, s.i, words[s.i].k);
    Advance(words, ids, s.i);
  }

  /** Writing the identifier of a word taken along, which is then passed. */
  lemma ArgumentWritten(words: seq<Word>, ids: seq<Keyword>, p: nat, k: Keyword)
    requires Written(words, ids, p) && 1 <= p < |words| && Recognised(words, p) == k
    ensures Written(words, ids[p := k], p + 1)
    ensures p + 1 < |words| ==> ids[p := k][p + 1] == KeyEnd || ids[p := k][p + 1] == Recognised(words, p + 1)
  {
    WriteKeeps(words, ids, p, p, k);
    Advance(words, ids[p := k], p);
  }

  lemma UnnamedKeeps(words: seq<Word>, s: Scan)
    requires Scanning(words, s) && s.i < |words| && !IsName(words, s.i)
    ensures Scanning(words, Scan(s.ids, s.i + 1, s.mac))
  {
    Advance(words, s.ids, s.i);
    assert !AddressAt(words, s.i + 1);
    assert s.i + 1 < |words| && !IsName(words, s.i + 1) ==> Recognised(words, s.i + 1) == KeyEnd;
  }

  /** Nothing is recognised in an unnamed word behind a keyword that takes nothing. */
  lemma NothingBehind(words: seq<Word>, s: Scan)
    requires Scanning(words, s) && Alone(words, s) && s.i + 1 < |words| && !IsName(words, s.i + 1)
    ensures Recognised(words, s.i + 1) == KeyEnd
  {
  }

  lemma AloneKeeps(words: seq<Word>, s: Scan)
    requires Scanning(words, s) && Alone(words, s)
    ensures Scanning(words, Scan(s.ids[s.i := words[s.i].k], s.i + 1, s.mac))
  {
    var ids := NameWritten(words, s);
    if s.i + 1 < |words| && !IsName(words, s.i + 1) {
      NothingBehind(words, s);
    }
  }

  /** Nothing is recognised behind a number. */
  lemma NothingBehindNumber(words: seq<Word>, p: nat)
    requires IsNumber(words, p)
    ensures AddressBy(words, p + 1) == AddressBy(words, p)
    ensures p + 1 < |words| && !IsName(words, p + 1) ==> Recognised(words, p + 1) == KeyEnd
  {
  }

  /** Writing the identifier of a number that was taken along, and passing it. */
  lemma NumberTaken(words: seq<Word>, ids: seq<Keyword>, p: nat, k: Keyword, mac: bool)
    requires Written(words, ids, p) && IsNumber(words, p) && Recognised(words, p) == k && mac == AddressBy(words, p)
    ensures Scanning(words, Scan(ids[p := k], p + 1, mac))
  {
    ArgumentWritten(words, ids, p, k);
    NothingBehindNumber(words, p);
  }

  lemma PairedKeeps(words: seq<Word>, s: Scan, k: Keyword, number: Keyword)
    requires Scanning(words, s) && Paired(words, s, k, number)
    ensures Scanning(words, Scan(s.ids[s.i := k][s.i + 1 := number], s.i + 2, s.mac))
  {
    var ids := NameWritten(words, s);
    assert !AddressAt(words, s.i + 1);
    NumberTaken(words, ids, s.i + 1, number, s.mac);
  }

  lemma VlanKeeps(words: seq<Word>, s: Scan)
    requires Scanning(words, s) && Says(words, s.i, Vlan) && AddsOrDeletes(words, s.i + 1) && !IsNumber(words, s.i + 2)
    ensures Scanning(words, Scan(s.ids[s.i := Vlan][s.i + 1 := words[s.i + 1].k], s.i + 1, s.mac))
  {
    var ids := NameWritten(words, s);
    assert !AddressAt(words, s.i + 1);
    WriteKeeps(words, ids, s.i + 1, s.i + 1, words[s.i + 1].k);
  }

  lemma VlanNumberKeeps(words: seq<Word>, s: Scan)
    requires Scanning(words, s) && Says(words, s.i, Vlan) && AddsOrDeletes(words, s.i + 1) && IsNumber(words, s.i + 2)
    ensures Scanning(words, Scan(s.ids[s.i := Vlan][s.i + 1 := words[s.i + 1].k][s.i + 2 := AddDelNo], s.i + 3, s.mac))
  {
    var ids := NameWritten(words, s);
    NoAddressInNumber(words, s.i);
    NameAndNumberTaken(words, ids, s.i + 1, words[s.i + 1].k, s.mac);
  }

  /** add or del behind vlan, and its number. */
  lemma NameAndNumberTaken(words: seq<Word>, ids: seq<Keyword>, p: nat, k: Keyword, mac: bool)
    requires Written(words, ids, p) && 1 <= p && IsNumber(words, p + 1)
    requires Recognised(words, p) == k && Recognised(words, p + 1) == AddDelNo && mac == AddressBy(words, p + 1)
    ensures Scanning(words, Scan(ids[p := k][p + 1 := AddDelNo], p + 2, mac))
  {
    ArgumentWritten(words, ids, p, k);
    NumberTaken(words, ids[p := k], p + 1, AddDelNo, mac);
  }

  lemma NoAddressInNumber(words: seq<Word>, i: nat)
    requires Says(words, i, Vlan) && AddsOrDeletes(words, i + 1) && IsNumber(words, i + 2)
    ensures AddressBy(words, i + 2) == AddressBy(words, i)
  {
    assert AddressBy(words, i + 2) == AddressBy(words, i + 1);
  }

  lemma AddressKeeps(words: seq<Word>, s: Scan)
    requires Scanning(words, s) && AddressAt(words, s.i + 1) && !s.mac
    ensures Scanning(words, Scan(s.ids[s.i := words[s.i].k][s.i + 1 := AddDelMac], s.i + 1, true))
  {
    var ids := NameWritten(words, s);
    WriteKeeps(words, ids, s.i + 1, s.i + 1, AddDelMac);
  }

  lemma PairedVisit(words: seq<Word>, s: Scan, k: Keyword, number: Keyword)
    requires Scanning(words, s) && Paired(words, s, k, number)
    ensures Scanning(words, Visit(words, s))
  {
    PairedResult(words, s, k, number);
    PairedKeeps(words, s, k, number);
  }

  lemma AloneVisit(words: seq<Word>, s: Scan)
    requires Scanning(words, s) && Alone(words, s)
    ensures Scanning(words, Visit(words, s))
  {
    AloneResult(words, s);
    AloneKeeps(words, s);
  }

  lemma VlanVisit(words: seq<Word>, s: Scan)
    requires Scanning(words, s) && Says(words, s.i, Vlan) && AddsOrDeletes(words, s.i + 1)
    ensures Scanning(words, Visit(words, s))
  {
    VlanResult(words, s);
    if IsNumber(words, s.i + 2) {
      VlanNumberKeeps(words, s);
    } else {
      VlanKeeps(words, s);
    }
  }

  lemma AddressVisit(words: seq<Word>, s: Scan)
    requires Scanning(words, s) && AddressAt(words, s.i + 1) && !s.mac
    ensures Scanning(words, Visit(words, s))
  {
    AddressResult(words, s);
    AddressKeeps(words, s);
  }

  lemma VisitKeeps(words: seq<Word>, s: Scan)
    requires Scanning(words, s) && s.i < |words|
    ensures Scanning(words, Visit(words, s))
  {
    if !IsName(words, s.i) {
      UnnamedKeeps(words, s);
    } else if Says(words, s.i, Vlan) && AddsOrDeletes(words, s.i + 1) {
      VlanVisit(words, s);
    } else if AddressAt(words, s.i + 1) && !s.mac {
      AddressVisit(words, s);
    } else if IsNumber(words, s.i + 1) {
      match words[s.i].k
      case Port => PairedVisit(words, s, Port, PortNo);
      case Vlan => PairedVisit(words, s, Vlan, VlanNo);
      case Pvid => PairedVisit(words, s, Pvid, PvidNo);
      case Aggr => PairedVisit(words, s, Aggr, AggrNo);
      case _ => AloneVisit(words, s);
    } else {
      AloneVisit(words, s);
    }
  }

  /** At the end every word has its keyword. */
  lemma ScanEnds(words: seq<Word>, s: Scan)
    requires Scanning(words, s) && s.i == |words|
    ensures forall p: int :: 1 <= p < |words| ==> s.ids[p] == Recognised(words, p)
  {
  }
}
