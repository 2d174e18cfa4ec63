/** Parsing an Ethernet switch command: words to keywords, an optional prefix, one row of the table. */
module EthswParse {
  import opened EthswTable
  import opened EthswWords

  const SUCCESS := 0
  const FAILURE := 1
  const USAGE := -1
  const EINVAL := 22

  const MAX_PARAMS: nat := 20

  /** A function pointer: none, one of the help functions, or a function of some driver. */
  datatype Handler = Null | Helps(topic: Topic) | Supplied(driver: int, slot: Slot)

  // ---------------------------------------------------------------- what a command is

  predicate Occurs(ids: seq<Keyword>, at: nat, p: Pattern) {
    at + Length(p) <= |ids| && forall k: nat :: k < Length(p) ==> ids[at + k] == KeyAt(p, k)
  }

  /** From position at on the identifiers are row r and nothing else. */
  predicate RowAt(table: seq<Pattern>, ids: seq<Keyword>, at: nat, r: nat) {
    r < |table| && at + Length(table[r]) == |ids| && Occurs(ids, at, table[r])
  }

  /** Behind the command's name the identifiers are optional prefix o followed by row r. */
  predicate Splits(table: seq<Pattern>, ids: seq<Keyword>, o: nat, r: nat) {
    o < OPTIONS && Occurs(ids, 1, Option(o)) && RowAt(table, ids, 1 + Length(Option(o)), r)
  }

  /** Position v is behind the longest optional prefix at position at. */
  ghost predicate BehindLongest(ids: seq<Keyword>, at: nat, v: nat) {
    && (exists o: nat :: o < OPTIONS && Occurs(ids, at, Option(o)) && v == at + Length(Option(o)))
    && (forall o: nat :: o < OPTIONS && Occurs(ids, at, Option(o)) ==> at + Length(Option(o)) <= v)
  }

  lemma KeysAt(ids: seq<Keyword>, at: nat, p: Pattern)
    requires Occurs(ids, at, p)
    ensures Length(p) > 0 ==> ids[at] == p.k0
    ensures Length(p) > 1 ==> ids[at + 1] == p.k1
    ensures Length(p) > 2 ==> ids[at + 2] == p.k2
    ensures Length(p) > 3 ==> ids[at + 3] == p.k3
  {
    if Length(p) > 0 { assert KeyAt(p, 0) == p.k0; }
    if Length(p) > 1 { assert KeyAt(p, 1) == p.k1; }
    if Length(p) > 2 { assert KeyAt(p, 2) == p.k2; }
    if Length(p) > 3 { assert KeyAt(p, 3) == p.k3; }
  }

  /** At most one row fits. */
  lemma RowUnique(table: seq<Pattern>, ids: seq<Keyword>, at: nat, r: nat, r': nat)
    requires Unambiguous(table) && RowAt(table, ids, at, r) && RowAt(table, ids, at, r')
    ensures r == r'
  {
    var p, q := table[r], table[r'];
    KeysAt(ids, at, p);
    KeysAt(ids, at, q);
    SameKeys(p, q);
  }

  lemma SameKeys(p: Pattern, q: Pattern)
    requires Length(p) == Length(q)
    requires Length(p) > 0 ==> p.k0 == q.k0
    requires Length(p) > 1 ==> p.k1 == q.k1
    requires Length(p) > 2 ==> p.k2 == q.k2
    requires Length(p) > 3 ==> p.k3 == q.k3
    ensures Canonical(p) && Canonical(q) ==> p == q
  {
  }

  /** Before a command no longer prefix can occur. */
  lemma PrefixBeforeCommand(ids: seq<Keyword>, o: nat, p: Pattern, other: nat)
    requires IsCommand(p) && o < OPTIONS && other < OPTIONS
    requires Occurs(ids, 1, Option(o)) && Occurs(ids, 1 + Length(Option(o)), p)
        && 1 + Length(Option(o)) + Length(p) == |ids|
    requires Occurs(ids, 1, Option(other))
    ensures Length(Option(other)) <= Length(Option(o))
  {
    KeysAt(ids, 1, Option(o));
    KeysAt(ids, 1, Option(other));
    KeysAt(ids, 1 + Length(Option(o)), p);
  }

  /** In a command the prefix it splits at is the longest that occurs: taking it is never wrong. */
  lemma GreedyNeverRejects(table: seq<Pattern>, ids: seq<Keyword>, o: nat, r: nat, other: nat)
    requires Unambiguous(table) && Splits(table, ids, o, r) && other < OPTIONS && Occurs(ids, 1, Option(other))
    ensures Length(Option(other)) <= Length(Option(o))
  {
    PrefixBeforeCommand(ids, o, table[r], other);
  }

  lemma SplitIsBehindLongest(table: seq<Pattern>, ids: seq<Keyword>, v: nat, o: nat, r: nat)
    requires Unambiguous(table) && BehindLongest(ids, 1, v) && Splits(table, ids, o, r)
    ensures v == 1 + Length(Option(o)) && v < |ids|
  {
    var best: nat :| best < OPTIONS && Occurs(ids, 1, Option(best)) && v == 1 + Length(Option(best));
    GreedyNeverRejects(table, ids, o, r, best);
  }

  /** A command splits in one way only. */
  lemma SplitUnique(table: seq<Pattern>, ids: seq<Keyword>, o: nat, r: nat, o': nat, r': nat)
    requires Unambiguous(table) && Splits(table, ids, o, r) && Splits(table, ids, o', r')
    ensures o == o' && r == r'
  {
    GreedyNeverRejects(table, ids, o, r, o');
    GreedyNeverRejects(table, ids, o', r', o);
    KeysAt(ids, 1, Option(o));
    KeysAt(ids, 1, Option(o'));
    RowUnique(table, ids, 1 + Length(Option(o)), r, r');
  }

  /** The identifiers the words of a command get. */
  function Sentence(words: seq<Word>): (ids: seq<Keyword>)
    ensures |ids| == |words|
  {
    seq(|words|, p requires 0 <= p < |words| => if p == 0 then KeyEnd else Recognised(words, p))
  }

  /** The identifiers are a command of the table. */
  ghost predicate IsKnown(table: seq<Pattern>, ids: seq<Keyword>) {
    exists o: nat, r: nat :: Splits(table, ids, o, r)
  }

  /** What the parser has to answer: success for a command whose row has a function, failure for one
      whose row has none, usage for everything else; and the function is the row's. */
  ghost predicate Answers(table: seq<Pattern>, ids: seq<Keyword>, functions: seq<Handler>, rc: int, handler: Handler)
    requires |functions| == |table|
  {
    && rc in {SUCCESS, FAILURE, USAGE}
    && (rc == USAGE <==> forall o: nat, r: nat :: !Splits(table, ids, o, r))
    && (forall o: nat, r: nat :: Splits(table, ids, o, r)
                                 ==> handler == functions[r] && (rc == SUCCESS <==> functions[r] != Null))
  }

  lemma AnswerUsage(table: seq<Pattern>, ids: seq<Keyword>, functions: seq<Handler>, v: nat, handler: Handler)
    requires Unambiguous(table) && |functions| == |table| && BehindLongest(ids, 1, v)
    requires forall r: nat :: !RowAt(table, ids, v, r)
    ensures Answers(table, ids, functions, USAGE, handler)
  {
    forall o: nat, r: nat ensures !Splits(table, ids, o, r) {
      if Splits(table, ids, o, r) {
        SplitIsBehindLongest(table, ids, v, o, r);
        assert false;
      }
    }
  }

  /** With nothing behind the prefix there is no row. */
  lemma NoRowAtEnd(table: seq<Pattern>, ids: seq<Keyword>)
    requires Unambiguous(table)
    ensures forall r: nat :: !RowAt(table, ids, |ids|, r)
  {
    forall r: nat ensures !RowAt(table, ids, |ids|, r) {
      if r < |table| {
        assert IsCommand(table[r]);
      }
    }
  }

  lemma AnswerFound(table: seq<Pattern>, ids: seq<Keyword>, functions: seq<Handler>, v: nat, r: nat)
    requires Unambiguous(table) && |functions| == |table| && BehindLongest(ids, 1, v) && RowAt(table, ids, v, r)
    ensures Answers(table, ids, functions, if functions[r] == Null then FAILURE else SUCCESS, functions[r])
  {
    var o: nat :| o < OPTIONS && Occurs(ids, 1, Option(o)) && v == 1 + Length(Option(o));
    assert Splits(table, ids, o, r);
    forall o': nat, r': nat | Splits(table, ids, o', r') ensures r' == r {
      SplitUnique(table, ids, o, r, o', r');
    }
  }

  /** The identifiers at and behind position 1 decide. */
  lemma SameCommand(table: seq<Pattern>, ids: seq<Keyword>, ids': seq<Keyword>, o: nat, r: nat)
    requires |ids| == |ids'| && forall p :: 1 <= p < |ids| ==> ids[p] == ids'[p]
    ensures Splits(table, ids, o, r) == Splits(table, ids', o, r)
  {
  }

  ghost predicate Alike(words: seq<Word>, ids: seq<Keyword>) {
    |ids| == |words| && forall p: int :: 1 <= p < |words| ==> ids[p] == Recognised(words, p)
  }

  /** A command has no unrecognised word. */
  lemma UnknownWord(table: seq<Pattern>, ids: seq<Keyword>, v: nat, r: nat)
    requires BehindLongest(ids, 1, v) && RowAt(table, ids, v, r)
    ensures forall p: nat :: 1 <= p < |ids| ==> ids[p] != KeyEnd
  {
    var o: nat :| o < OPTIONS && Occurs(ids, 1, Option(o)) && v == 1 + Length(Option(o));
    forall p: nat | 1 <= p < |ids| ensures ids[p] != KeyEnd {
      if p < v {
        assert ids[1 + (p - 1)] == KeyAt(Option(o), p - 1);
      } else {
        assert ids[v + (p - v)] == KeyAt(table[r], p - v);
      }
    }
  }

  lemma ConcludeUsage(table: seq<Pattern>, words: seq<Word>, ids: seq<Keyword>, functions: seq<Handler>, v: nat,
                      handler: Handler)
    requires Unambiguous(table) && |functions| == |table| && Alike(words, ids) && BehindLongest(ids, 1, v)
    requires forall r: nat :: !RowAt(table, ids, v, r)
    ensures Answers(table, Sentence(words), functions, USAGE, handler)
  {
    AnswerUsage(table, ids, functions, v, handler);
    AnswersCarry(table, words, ids, functions, USAGE, handler);
  }

  lemma ConcludeFound(table: seq<Pattern>, words: seq<Word>, ids: seq<Keyword>, functions: seq<Handler>, v: nat,
                      given: int, handler: Handler)
    requires Unambiguous(table) && |functions| == |table| && Alike(words, ids) && BehindLongest(ids, 1, v)
    requires exists r: nat :: RowAt(table, ids, v, r) && handler == functions[r]
    requires given == SUCCESS || (given == USAGE && exists p: nat :: 1 <= p < |ids| && ids[p] == KeyEnd)
    ensures Answers(table, Sentence(words), functions, if handler == Null then FAILURE else given, handler)
  {
    var r: nat :| RowAt(table, ids, v, r) && handler == functions[r];
    UnknownWord(table, ids, v, r);
    assert given == SUCCESS;
    AnswerFound(table, ids, functions, v, r);
    AnswersCarry(table, words, ids, functions, if handler == Null then FAILURE else SUCCESS, handler);
  }

  lemma AnswersCarry(table: seq<Pattern>, words: seq<Word>, ids: seq<Keyword>, functions: seq<Handler>, rc: int,
                     handler: Handler)
    requires |functions| == |table| && Alike(words, ids) && Answers(table, ids, functions, rc, handler)
    ensures Answers(table, Sentence(words), functions, rc, handler)
  {
    forall o: nat, r: nat ensures Splits(table, ids, o, r) == Splits(table, Sentence(words), o, r) {
      SameCommand(table, ids, Sentence(words), o, r);
    }
  }

  // ---------------------------------------------------------------- the table's functions

  /** The table before any driver registers. */
  function Initial(): (f: seq<Handler>)
    ensures |f| == ROWS
  {
    seq(ROWS, r requires 0 <= r < ROWS =>
      match Table(r).target case Shows(topic) => Helps(topic) case Calls(slot) => Null)
  }

  /** What registering does to a row. */
  function Registered(f: Handler, r: nat, driver: Slot -> Handler): Handler
    requires r < ROWS
  {
    if f != Null then f else match Table(r).target case Shows(topic) => f case Calls(slot) => driver(slot)
  }

  /** The functions after a first and a second driver have registered: help stays, and the second
      driver supplies only what the first left out. */
  lemma FirstDriverWins(r: nat, first: Slot -> Handler, second: Slot -> Handler)
    requires r < ROWS
    ensures Registered(Registered(Initial()[r], r, first), r, second)
         == match Table(r).target
            case Shows(topic) => Helps(topic)
            case Calls(slot) => if first(slot) != Null then first(slot) else second(slot)
  {
  }

  /** ethsw_define_functions. */
  method DefineFunctions(functions: array<Handler>, named: bool, driver: Slot -> Handler) returns (rc: int)
    requires functions.Length == ROWS
    requires forall r :: 0 <= r < ROWS && Table(r).target.Shows? ==> functions[r] != Null
    modifies functions
    ensures rc == if named then 0 else -22
    ensures forall r :: 0 <= r < ROWS ==>
              functions[r] == if named then Registered(old(functions[r]), r, driver) else old(functions[r])
  {
    if !named {
      return -EINVAL;
    }
    var i := 0;
    while i < ROWS
      invariant i <= ROWS
      invariant forall r :: 0 <= r < i ==> functions[r] == Registered(old(functions[r]), r, driver)
      invariant forall r :: i <= r < ROWS ==> functions[r] == old(functions[r])
    {
      if functions[i] == Null {
        functions[i] := driver(Table(i).target.slot);
      }
      i := i + 1;
    }
    rc := 0;
  }

  // ---------------------------------------------------------------- a command being parsed

  class Command {
    /** cmd_to_keywords. */
    const ids: array<Keyword>
    /** cmd_keywords_nr. */
    var nr: nat
    /** Whether ethaddr is no longer the broadcast address. */
    var mac: bool
    /** cmd_function. */
    var handler: Handler

    constructor ()
      ensures fresh(ids) && ids.Length == MAX_PARAMS && !mac && handler == Null
      ensures forall p :: 0 <= p < MAX_PARAMS ==> ids[p] == KeyEnd
    {
      ids := new Keyword[MAX_PARAMS](_ => KeyEnd);
      nr, mac, handler := 0, false, Null;
    }

    method SetId(p: nat, k: Keyword)
      requires p < ids.Length
      modifies ids
      ensures ids[..] == old(ids[..])[p := k]
    {
      ids[p] := k;
    }

    method KeywordMatchGen(k: Keyword, words: seq<Word>, i: nat) returns (m: bool)
      requires i < |words| <= ids.Length
      modifies ids
      ensures (Scan(ids[..], i, mac), m) == MatchGen(k, words, old(Scan(ids[..], i, mac)))
    {
      if words[i] == Named(k) {
        SetId(i, k);
        return true;
      }
      return false;
    }

    method KeywordMatchPort(words: seq<Word>, i: nat) returns (m: bool, j: nat)
      requires i < |words| <= ids.Length
      modifies ids
      ensures (Scan(ids[..], j, mac), m) == MatchPort(words, old(Scan(ids[..], i, mac)))
    {
      j := i;
      m := KeywordMatchGen(Port, words, i);
      if !m || i + 1 >= |words| {
        return false, j;
      }
      if words[i + 1] == Number {
        j := j + 1;
        SetId(j, PortNo);
        return true, j;
      }
      return false, j;
    }

    method KeywordMatchVlan(words: seq<Word>, i: nat) returns (m: bool, j: nat)
      requires i < |words| <= ids.Length
      modifies ids
      ensures (Scan(ids[..], j, mac), m) == MatchVlan(words, old(Scan(ids[..], i, mac)))
    {
      j := i;
      m := KeywordMatchGen(Vlan, words, i);
      if !m || i + 1 >= |words| {
        return false, j;
      }
      if words[i + 1] == Number {
        j := j + 1;
        SetId(j, VlanNo);
        return true, j;
      }
      m := KeywordMatchGen(Add, words, i + 1);
      if !m {
        m := KeywordMatchGen(Del, words, i + 1);
        if !m {
          return false, j;
        }
      }
      if i + 2 >= |words| {
        return false, j;
      }
      if words[i + 2] == Number {
        j := j + 2;
        SetId(j, AddDelNo);
        return true, j;
      }
      return false, j;
    }

    method KeywordMatchPvid(words: seq<Word>, i: nat) returns (m: bool, j: nat)
      requires i < |words| <= ids.Length
      modifies ids
      ensures (Scan(ids[..], j, mac), m) == MatchNumbered(Pvid, PvidNo, words, old(Scan(ids[..], i, mac)))
    {
      j := i;
      m := KeywordMatchGen(Pvid, words, i);
      if !m || i + 1 >= |words| {
        return m, j;
      }
      if words[i + 1] == Number {
        j := j + 1;
        SetId(j, PvidNo);
        return true, j;
      }
      return true, j;
    }

    method KeywordMatchAggr(words: seq<Word>, i: nat) returns (m: bool, j: nat)
      requires i < |words| <= ids.Length
      modifies ids
      ensures (Scan(ids[..], j, mac), m) == MatchNumbered(Aggr, AggrNo, words, old(Scan(ids[..], i, mac)))
    {
      j := i;
      m := KeywordMatchGen(Aggr, words, i);
      if !m || i + 1 >= |words| {
        return m, j;
      }
      if words[i + 1] == Number {
        j := j + 1;
        SetId(j, AggrNo);
        return true, j;
      }
      return true, j;
    }

    method KeywordMatchMacAddr(k: Keyword, words: seq<Word>, i: nat) returns (m: bool)
      requires i < |words| <= ids.Length
      modifies ids, this`mac
      ensures (Scan(ids[..], i, mac), m) == MatchMac(k, words, old(Scan(ids[..], i, mac)))
    {
      m := KeywordMatchGen(k, words, i);
      if !m || i + 1 >= |words| || mac {
        return m;
      }
      if !words[i + 1].Mac? {
        return false;
      }
      mac := !words[i + 1].broadcast;
      if !mac {
        return false;
      }
      SetId(i + 1, AddDelMac);
      return true;
    }

    method KeywordMatch(k: Keyword, words: seq<Word>, i: nat) returns (m: bool, j: nat)
      requires i < |words| <= ids.Length
      modifies ids, this`mac
      ensures (Scan(ids[..], j, mac), m) == Match(k, words, old(Scan(ids[..], i, mac)))
    {
      j := i;
      match k {
        case Port => m, j := KeywordMatchPort(words, i);
        case Vlan => m, j := KeywordMatchVlan(words, i);
        case Pvid => m, j := KeywordMatchPvid(words, i);
        case Aggr => m, j := KeywordMatchAggr(words, i);
        case Add => m := KeywordMatchMacAddr(Add, words, i);
        case Del => m := KeywordMatchMacAddr(Del, words, i);
        case _ => m := KeywordMatchGen(k, words, i);
      }
    }

    /** The keywords tried for one word, until one matches. */
    method MatchWord(words: seq<Word>, i: nat) returns (next: nat)
      requires 1 <= i < |words| <= ids.Length
      modifies ids, this`mac
      ensures Scan(ids[..], next + 1, mac) == Visit(words, old(Scan(ids[..], i, mac)))
    {
      ghost var s := Scan(ids[..], i, mac);
      ghost var index := if words[i].Named? then IndexOf(words[i].k) else NAMES;
      next := i;
      var j, m := 0, false;
      while j < NAMES && !m
        invariant j <= NAMES && (m ==> index < j)
        invariant Scan(ids[..], next, mac) == if index < j then Match(words[i].k, words, s).0 else s
        invariant !m ==> next == i
        decreases NAMES - j, !m
      {
        if words[i].Named? { NameOfIndex(j, words[i].k); }
        m, next := KeywordMatch(Name(j), words, next);
        j := j + 1;
      }
    }

    /** The words of the command. */
    method MatchWords(words: seq<Word>)
      requires 1 <= |words| <= ids.Length && !mac && forall p :: 0 <= p < ids.Length ==> ids[p] == KeyEnd
      modifies ids, this`mac
      ensures forall p: int :: 1 <= p < |words| ==> ids[p] == Recognised(words, p)
    {
      ScanStarts(words, ids[..]);
      var i := 1;
      while i < |words|
        invariant Scanning(words, Scan(ids[..], i, mac))
      {
        VisitKeeps(words, Scan(ids[..], i, mac));
        i := MatchWord(words, i);
        i := i + 1;
      }
      ScanEnds(words, Scan(ids[..], i, mac));
    }

    /** How many keywords of a pattern the command has at a position. */
    method CountMatched(p: Pattern, at: nat) returns (n: nat)
      requires at <= nr <= ids.Length
      ensures n <= Length(p) && (KeyAt(p, n) == KeyEnd <==> Occurs(ids[..nr], at, p))
      ensures at + n <= nr && (KeyAt(p, n) == KeyEnd ==> n == Length(p))
    {
      n := 0;
      while n + at < nr && KeyAt(p, n) != KeyEnd && ids[at + n] == KeyAt(p, n)
        invariant n <= Length(p) && n + at <= nr
        invariant forall k: nat :: k < n ==> ids[at + k] == KeyAt(p, k)
      {
        n := n + 1;
      }
      if KeyAt(p, n) != KeyEnd && at + Length(p) <= nr {
        assert ids[..nr][at + n] != KeyAt(p, n);
      }
    }

    method CmdKeywordsOptCheck(argcVal: nat) returns (v: nat)
      requires argcVal <= nr <= ids.Length
      ensures BehindLongest(ids[..nr], argcVal, v) && v <= nr
    {
      v := argcVal;
      var i := 0;
      assert Occurs(ids[..nr], argcVal, Option(0));
      while i < OPTIONS - 1
        invariant i <= OPTIONS - 1 && argcVal <= v <= nr
        invariant exists o: nat ::
                    o < OPTIONS && Occurs(ids[..nr], argcVal, Option(o)) && v == argcVal + Length(Option(o))
        invariant forall o: nat :: o <= i && Occurs(ids[..nr], argcVal, Option(o)) ==> argcVal + Length(Option(o)) <= v
      {
        var n := CountMatched(Option(i + 1), argcVal);
        if n + argcVal <= nr && KeyAt(Option(i + 1), n) == KeyEnd && argcVal + n > v {
          v := argcVal + n;
        }
        i := i + 1;
      }
    }

    method CmdKeywordsCheck(table: seq<Pattern>, functions: seq<Handler>, argcVal: nat) returns (v: nat)
      requires Unambiguous(table) && argcVal <= nr <= ids.Length && |functions| == |table|
      modifies this`handler
      ensures v == argcVal || v == nr
      ensures v == argcVal ==> forall r: nat :: !RowAt(table, ids[..nr], argcVal, r)
      ensures v != argcVal ==> exists r: nat :: RowAt(table, ids[..nr], argcVal, r) && handler == functions[r]
    {
      var i := 0;
      while i < |table|
        invariant i <= |table|
        invariant forall r: nat :: r < i ==> !RowAt(table, ids[..nr], argcVal, r)
      {
        var n := CountMatched(table[i], argcVal);
        if n > 0 && n + argcVal == nr && KeyAt(table[i], n) == KeyEnd {
          handler := functions[i];
          assert RowAt(table, ids[..nr], argcVal, i);
          return argcVal + n;
        }
        i := i + 1;
      }
      v := argcVal;
    }

    /** keywords_find. */
    method KeywordsFind(table: seq<Pattern>, words: seq<Word>, functions: seq<Handler>) returns (rc: int)
      requires Unambiguous(table) && 1 <= |words| <= ids.Length && |functions| == |table|
      requires !mac && forall p :: 0 <= p < ids.Length ==> ids[p] == KeyEnd
      modifies this, ids
      ensures Answers(table, Sentence(words), functions, rc, handler)
    {
      MatchWords(words);
      rc := SUCCESS;
      var i := 1;
      while i < |words|
        invariant 1 <= i <= |words|
        invariant rc == SUCCESS || (rc == USAGE && exists p: nat :: 1 <= p < |words| && ids[..|words|][p] == KeyEnd)
      {
        if ids[i] == KeyEnd {
          assert ids[..|words|][i] == KeyEnd;
          rc := USAGE;
        }
        i := i + 1;
      }
      nr := |words|;
      rc := Resolve(table, words, functions, rc);
    }

    /** The second half of keywords_find: prefix, row, function. */
    method Resolve(table: seq<Pattern>, words: seq<Word>, functions: seq<Handler>, given: int) returns (rc: int)
      requires Unambiguous(table) && 1 <= |words| <= ids.Length && |functions| == |table| && nr == |words|
      requires Alike(words, ids[..nr])
      requires given == SUCCESS || (given == USAGE && exists p: nat :: 1 <= p < nr && ids[..nr][p] == KeyEnd)
      modifies this`handler
      ensures Answers(table, Sentence(words), functions, rc, handler)
    {
      ghost var all := ids[..nr];
      var v := CmdKeywordsOptCheck(1);
      if v == nr {
        NoRowAtEnd(table, all);
        ConcludeUsage(table, words, all, functions, v, handler);
        return USAGE;
      }
      var w := CmdKeywordsCheck(table, functions, v);
      assert ids[..nr] == all;
      if w == nr {
        ConcludeFound(table, words, all, functions, v, given, handler);
        rc := if handler == Null then FAILURE else given;
      } else {
        ConcludeUsage(table, words, all, functions, v, handler);
        rc := USAGE;
      }
    }
  }

  /** do_ethsw up to the call: what is called is the function of the command's row, and nothing is
      unless the words are a command and its row has a function. A command without a function returns 1,
      words that are no command -1. */
  method DoEthsw(words: seq<Word>, functions: seq<Handler>) returns (rc: int, called: Handler)
    requires |words| >= 1 && |functions| == ROWS
    ensures called != Null
            <==> 2 <= |words| < 20
                 && exists o: nat, r: nat :: Splits(Commands(), Sentence(words), o, r) && functions[r] != Null
    ensures called != Null ==>
              forall o: nat, r: nat :: Splits(Commands(), Sentence(words), o, r) ==> called == functions[r]
    ensures called == Null ==> rc == if 2 <= |words| < 20 && IsKnown(Commands(), Sentence(words)) then 1 else -1
  {
    if |words| == 1 || |words| >= MAX_PARAMS {
      return USAGE, Null;
    }
    TableIsUnambiguous();
    var command := new Command();
    rc := command.KeywordsFind(Commands(), words, functions);
    called := if rc == SUCCESS then command.handler else Null;
  }
}
