// What a loop over getopt_long recovers from a command line that was rendered
// from a list of options.
module CommandLines {
  import opened Words
  import opened Getopt

  // An option as it is written on the command line.
  datatype Item =
    | Cluster(letters: CString)
    | ClusterInline(letters: CString, opt: byte, value: CString)
    | ClusterSeparate(letters: CString, opt: byte, value: CString)
    | LongPlain(k: nat)
    | LongInline(k: nat, value: CString)
    | LongSeparate(k: nat, value: CString)

  // Text put in front of a string.
  function Prefixed(prefix: CString, s: CString): CString {
    prefix + s
  }

  const ONE_DASH: CString := [0x2D]
  const TWO_DASHES: CString := [0x2D, 0x2D]
  const EQUALS_SIGN: CString := [0x3D]

  function Letter(opt: byte): CString
    requires opt != 0
  {
    [opt]
  }

  function Rendered(item: Item, longs: seq<LongOption>): seq<CString>
    requires WellFormed(item, longs)
  {
    match item
    case Cluster(letters) => [Prefixed(ONE_DASH, letters)]
    case ClusterInline(letters, opt, value) => [Prefixed(ONE_DASH, Prefixed(letters, Prefixed(Letter(opt), value)))]
    case ClusterSeparate(letters, opt, value) => [Prefixed(ONE_DASH, Prefixed(letters, Letter(opt))), value]
    case LongPlain(k) => [Prefixed(TWO_DASHES, longs[k].name)]
    case LongInline(k, value) => [Prefixed(TWO_DASHES, Prefixed(longs[k].name, Prefixed(EQUALS_SIGN, value)))]
    case LongSeparate(k, value) => [Prefixed(TWO_DASHES, longs[k].name), value]
  }

  predicate WellFormed(item: Item, longs: seq<LongOption>) {
    match item
    case Cluster(_) => true
    case ClusterInline(_, opt, _) => opt != 0
    case ClusterSeparate(_, opt, _) => opt != 0
    case LongPlain(k) => k < |longs|
    case LongInline(k, _) => k < |longs|
    case LongSeparate(k, _) => k < |longs|
  }

  // The item says what the tables allow. A cluster may not begin with a dash,
  // which would make it a long option; an inline value is not empty, or it
  // would be looked for in the next argument; a long name has no equals sign,
  // and its entry is the first of that name and returns no -1.
  predicate Valid(item: Item, i: Input) {
    && WellFormed(item, i.longs)
    && match item
       case Cluster(letters) => |letters| > 0 && letters[0] != DASH && AllFlags(letters, i)
       case ClusterInline(letters, opt, value) =>
         && AllFlags(letters, i) && KindOf(i.optstring, opt) == TakesArgument && value != []
         && (letters + [opt])[0] != DASH
       case ClusterSeparate(letters, opt, value) =>
         && AllFlags(letters, i) && KindOf(i.optstring, opt) == TakesArgument
         && (letters + [opt])[0] != DASH
       case LongPlain(k) => ValidLong(k, i) && i.longs[k].name != [] && i.longs[k].hasArg != RequiredArgument
       case LongInline(k, _) => ValidLong(k, i) && i.longs[k].hasArg != NoArgument
       case LongSeparate(k, _) => ValidLong(k, i) && i.longs[k].name != [] && i.longs[k].hasArg == RequiredArgument
  }

  predicate AllFlags(letters: seq<byte>, i: Input) {
    forall c :: c in letters ==> KindOf(i.optstring, c) == Flag
  }

  predicate ValidLong(k: nat, i: Input) {
    && k < |i.longs| && EQUALS !in i.longs[k].name
    && FindLong(i.longs, i.longs[k].name, 0) == Some(k)
    && (i.longs[k].flag.Some? || i.longs[k].val != DONE)
  }

  // What the caller of the loop should see of an item.
  function FlagEvents(letters: seq<byte>): (e: seq<Event>)
    ensures |e| == |letters|
  {
    seq(|letters|, j requires 0 <= j < |letters| => Event(letters[j], None))
  }

  function LongReturn(lo: LongOption): int {
    if lo.flag.Some? then 0 else lo.val
  }

  function Expected(item: Item, longs: seq<LongOption>): seq<Event>
    requires WellFormed(item, longs)
  {
    match item
    case Cluster(letters) => FlagEvents(letters)
    case ClusterInline(letters, opt, value) => FlagEvents(letters) + [Event(opt, Some(value))]
    case ClusterSeparate(letters, opt, value) => FlagEvents(letters) + [Event(opt, Some(value))]
    case LongPlain(k) => [Event(LongReturn(longs[k]), None)]
    case LongInline(k, value) => [Event(LongReturn(longs[k]), Some(value))]
    case LongSeparate(k, value) => [Event(LongReturn(longs[k]), Some(value))]
  }

  // The ints that long options with a flag store into.
  function Stored(item: Item, longs: seq<LongOption>, flags: map<nat, int>): map<nat, int>
    requires WellFormed(item, longs)
  {
    if item.LongPlain? || item.LongInline? || item.LongSeparate? then
      match longs[item.k].flag
      case Some(f) => flags[f := longs[item.k].val]
      case None => flags
    else flags
  }

  // ---- One item ----------------------------------------------------------------------

  // From st, the loop sees the events and then goes on from st'.
  ghost predicate Parses(st: State, i: Input, events: seq<Event>, st': State) {
    && st.optind <= st'.optind <= |i.argv|
    && ParseAll(st, i).0 == events + ParseAll(st', i).0
    && ParseAll(st, i).1 == ParseAll(st', i).1
  }

  lemma ParsesNothing(st: State, i: Input)
    requires st.optind <= |i.argv|
    ensures Parses(st, i, [], st)
  {
  }

  lemma ParsesChain(st: State, i: Input, e1: seq<Event>, st1: State, e2: seq<Event>, st2: State)
    requires Parses(st, i, e1, st1) && Parses(st1, i, e2, st2)
    ensures Parses(st, i, e1 + e2, st2)
  {
    var e3 := ParseAll(st2, i).0;
    assert e1 + (e2 + e3) == (e1 + e2) + e3;
  }

  lemma ParsesOne(st: State, i: Input)
    requires st.optind <= |i.argv| && LongCall(st, i).1 != DONE
    ensures var (st', ret) := LongCall(st, i); st'.optind <= |i.argv| && Parses(st, i, [Event(ret, st'.optarg)], st')
  {
    CallsMakeProgress(st, i);
  }

  // Letters of a cluster that are flags, with something behind them: another
  // argument, or more of the cluster.
  lemma {:induction false} ParseLetters(st: State, i: Input, letters: CString, rest: CString) returns (st': State)
    requires st.optind < |i.argv| && st.next == Some(Prefixed(letters, rest))
    requires AllFlags(letters, i)
    ensures Parses(st, i, FlagEvents(letters), st')
    ensures st'.optind == st.optind && st'.next == Some(rest) && st'.flags == st.flags
    decreases |letters|
  {
    if |letters| == 0 {
      ParsesNothing(st, i);
      assert Prefixed(letters, rest) == rest;
      return st;
    }
    var (st1, ret) := LongCall(st, i);
    assert ret == letters[0] && letters[0] in letters;
    assert Rest(Prefixed(letters, rest)) == Prefixed(Rest(letters), rest);
    ParsesOne(st, i);
    st' := ParseLetters(st1, i, Rest(letters), rest);
    ParsesChain(st, i, [Event(ret, None)], st1, FlagEvents(Rest(letters)), st');
    assert FlagEvents(letters) == [Event(ret, None)] + FlagEvents(Rest(letters));
  }

  // A cluster begins: the cursor moves behind the dash. The first character is
  // read by the same call, so the loop sees what it would see from there.
  lemma ClusterBegins(st: State, i: Input, text: CString)
    requires st.optind < |i.argv| && st.Clean()
    requires i.argv[st.optind] == Prefixed(ONE_DASH, text) && |text| > 0 && text[0] != DASH
    ensures var begun := st.(next := Some(text), optind := st.optind + 1);
      LongCall(st, i) == TakeOption(begun, i)
      && (begun.optind < |i.argv| ==>
            LongCall(begun, i) == TakeOption(begun, i) && ParseAll(st, i) == ParseAll(begun, i))
  {
    var arg := i.argv[st.optind];
    assert arg[0] == DASH && arg[1] == text[0];
    assert Rest(arg) == text;
  }

  // The last step of a cluster: an option with its value.
  lemma TakesInline(st: State, i: Input, opt: byte, value: CString)
    requires st.optind < |i.argv| && opt != 0 && st.next == Some(Prefixed(Letter(opt), value))
    requires KindOf(i.optstring, opt) == TakesArgument && value != []
    ensures LongCall(st, i) == (st.(optarg := Some(value), next := None), opt)
  {
    assert Rest(Prefixed(Letter(opt), value)) == value;
  }

  lemma TakesSeparate(st: State, i: Input, opt: byte, value: CString)
    requires st.optind < |i.argv| && opt != 0 && st.next == Some(Letter(opt))
    requires KindOf(i.optstring, opt) == TakesArgument && i.argv[st.optind] == value
    ensures LongCall(st, i) == (st.(optarg := Some(value), optind := st.optind + 1, next := None), opt)
  {
    assert Rest(Letter(opt)) == [];
  }

  lemma NameFound(name: CString, rest: CString)
    requires EQUALS !in name
    ensures NameLength(name) == |name|
    ensures NameLength(Prefixed(name, Prefixed(EQUALS_SIGN, rest))) == |name|
  {
    FindSkips(name, EQUALS, 0);
    var text := Prefixed(name, Prefixed(EQUALS_SIGN, rest));
    FindFirst(text, EQUALS, 0, |name|);
  }

  lemma {:induction false} FindSkips(s: seq<byte>, c: byte, start: nat)
    requires start <= |s| && c !in s
    ensures Find(s, c, start) == None
    decreases |s| - start
  {
    if start < |s| {
      assert s[start] in s;
      FindSkips(s, c, start + 1);
    }
  }

  lemma {:induction false} FindFirst(s: seq<byte>, c: byte, start: nat, p: nat)
    requires start <= p < |s| && s[p] == c && (forall j :: start <= j < p ==> s[j] != c)
    ensures Find(s, c, start) == Some(p)
    decreases p - start
  {
    if start < p {
      FindFirst(s, c, start + 1, p);
    }
  }

  // A long option is one call.
  lemma TakesLong(st: State, i: Input, k: nat, text: CString, value: Option<CString>)
    requires st.optind < |i.argv| && st.Clean() && ValidLong(k, i)
    requires i.argv[st.optind] == Prefixed(TWO_DASHES, text) && text != []
    requires text == match value
                     case None => i.longs[k].name
                     case Some(v) => Prefixed(i.longs[k].name, Prefixed(EQUALS_SIGN, v))
    ensures LongCall(st, i)
            == TakeLongArgument(Indexed(st.(optind := st.optind + 1), k), i, i.longs[k], value)
  {
    hide Find, FindLong, ShortCall, TakeLongArgument;
    var arg, name := i.argv[st.optind], i.longs[k].name;
    assert arg[0] == DASH && arg[1] == DASH && arg[2] == text[0] && Drop(arg, 2) == text;
    NameFound(name, if value.Some? then value.value else []);
    assert text[..|name|] == name;
    if value.Some? {
      assert Drop(text, |name| + 1) == value.value;
    }
  }

  // Items that take more than one call without needing a second argument. When
  // nothing follows them, optind reaches argc with the first call, and the
  // next call looks no further.
  predicate LosesTail(item: Item) {
    (item.Cluster? && |item.letters| > 1) || (item.ClusterInline? && |item.letters| > 0)
  }

  // The item's arguments stand where the parser is.
  predicate Ahead(st: State, i: Input, args: seq<CString>) {
    st.optind + |args| <= |i.argv| && i.argv[st.optind..st.optind + |args|] == args
  }

  lemma AheadAt(st: State, i: Input, args: seq<CString>, j: nat)
    requires Ahead(st, i, args) && j < |args|
    ensures i.argv[st.optind + j] == args[j]
  {
    assert i.argv[st.optind..st.optind + |args|][j] == i.argv[st.optind + j];
  }

  lemma AheadSplit(st: State, i: Input, head: seq<CString>, tail: seq<CString>)
    requires Ahead(st, i, head + tail)
    ensures Ahead(st, i, head) && st.optind + |head| + |tail| <= |i.argv|
    ensures forall st1: State :: st1.optind == st.optind + |head| ==> Ahead(st1, i, tail)
  {
    var args := i.argv[st.optind..st.optind + |head + tail|];
    assert i.argv[st.optind..st.optind + |head|] == args[..|head|] == head;
    assert i.argv[st.optind + |head|..st.optind + |head| + |tail|] == args[|head|..] == tail;
  }

  lemma RenderedSomething(item: Item, longs: seq<LongOption>)
    requires WellFormed(item, longs)
    ensures |Rendered(item, longs)| > 0
  {
  }

  // What stands behind the dash of a cluster, and behind its flags.
  predicate IsCluster(item: Item) {
    item.Cluster? || item.ClusterInline? || item.ClusterSeparate?
  }

  function AfterFlags(item: Item, longs: seq<LongOption>): CString
    requires IsCluster(item) && WellFormed(item, longs)
  {
    if item.Cluster? then []
    else if item.ClusterInline? then Prefixed(Letter(item.opt), item.value)
    else Letter(item.opt)
  }

  function ClusterText(item: Item, longs: seq<LongOption>): CString
    requires IsCluster(item) && WellFormed(item, longs)
  {
    Prefixed(item.letters, AfterFlags(item, longs))
  }

  lemma ClusterRendered(item: Item, i: Input)
    requires IsCluster(item) && Valid(item, i)
    ensures Rendered(item, i.longs)[0] == Prefixed(ONE_DASH, ClusterText(item, i.longs))
    ensures |ClusterText(item, i.longs)| > 0 && ClusterText(item, i.longs)[0] != DASH
  {
    var text := ClusterText(item, i.longs);
    if item.Cluster? {
      assert text == item.letters;
    } else {
      assert text[0] == (item.letters + [item.opt])[0];
    }
  }

  // A cluster that is read in one call because nothing follows it.
  lemma ParseLastCluster(st: State, i: Input, item: Item) returns (st': State)
    requires st.Clean() && Valid(item, i) && Ahead(st, i, Rendered(item, i.longs)) && IsCluster(item)
    requires st.optind + 1 == |i.argv| && !LosesTail(item)
    ensures Parses(st, i, Expected(item, i.longs), st')
    ensures st'.optind == st.optind + 1 && st'.Clean() && st'.flags == st.flags
  {
    hide ParseAll, FindLong, TakeLong, Find;
    var text := ClusterText(item, i.longs);
    AheadAt(st, i, Rendered(item, i.longs), 0);
    ClusterRendered(item, i);
    ClusterBegins(st, i, text);
    ParsesOne(st, i);
    st' := LongCall(st, i).0;
    if item.Cluster? {
      assert Rest(text) == [] && item.letters[0] in item.letters;
      assert FlagEvents(item.letters) == [Event(item.letters[0], None)];
    } else {
      assert Rest(text) == item.value;
      assert Expected(item, i.longs) == [Event(item.opt, Some(item.value))];
    }
  }

  lemma ParseClusterItem(st: State, i: Input, item: Item) returns (st': State)
    requires st.Clean() && Valid(item, i) && Ahead(st, i, Rendered(item, i.longs)) && IsCluster(item)
    requires st.optind + |Rendered(item, i.longs)| < |i.argv| || !LosesTail(item)
    ensures Parses(st, i, Expected(item, i.longs), st')
    ensures st'.optind == st.optind + |Rendered(item, i.longs)| && st'.Clean() && st'.flags == st.flags
  {
    hide ParseAll;
    if st.optind + 1 == |i.argv| {
      st' := ParseLastCluster(st, i, item);
      return;
    }
    var letters, text := item.letters, ClusterText(item, i.longs);
    AheadAt(st, i, Rendered(item, i.longs), 0);
    ClusterRendered(item, i);
    ClusterBegins(st, i, text);
    var begun := st.(next := Some(text), optind := st.optind + 1);
    var st1 := ParseLetters(begun, i, letters, AfterFlags(item, i.longs));
    if item.Cluster? {
      st' := st1;
    } else {
      if item.ClusterInline? {
        TakesInline(st1, i, item.opt, item.value);
      } else {
        AheadAt(st, i, Rendered(item, i.longs), 1);
        TakesSeparate(st1, i, item.opt, item.value);
      }
      ParsesOne(st1, i);
      st' := LongCall(st1, i).0;
      ParsesChain(begun, i, FlagEvents(letters), st1, [Event(item.opt, Some(item.value))], st');
    }
  }

  // The events of one long option, however it is written.
  ghost predicate ParsesLong(st: State, i: Input, item: Item, st': State)
    requires WellFormed(item, i.longs)
  {
    && Parses(st, i, Expected(item, i.longs), st')
    && st'.optind == st.optind + |Rendered(item, i.longs)| && st'.Clean()
    && st'.flags == Stored(item, i.longs, st.flags)
  }

  lemma ParsePlain(st: State, i: Input, item: Item) returns (st': State)
    requires st.Clean() && Valid(item, i) && Ahead(st, i, Rendered(item, i.longs)) && item.LongPlain?
    ensures ParsesLong(st, i, item, st')
  {
    hide ParseAll, FindLong, KindOf, ShortCall, Find, LongCall, Parses;
    AheadAt(st, i, Rendered(item, i.longs), 0);
    TakesLong(st, i, item.k, i.longs[item.k].name, None);
    ParsesOne(st, i);
    st' := LongCall(st, i).0;
  }

  lemma ParseInline(st: State, i: Input, item: Item) returns (st': State)
    requires st.Clean() && Valid(item, i) && Ahead(st, i, Rendered(item, i.longs)) && item.LongInline?
    ensures ParsesLong(st, i, item, st')
  {
    hide ParseAll, FindLong, KindOf, ShortCall, Find, LongCall, Parses;
    AheadAt(st, i, Rendered(item, i.longs), 0);
    TakesLong(st, i, item.k, Prefixed(i.longs[item.k].name, Prefixed(EQUALS_SIGN, item.value)), Some(item.value));
    ParsesOne(st, i);
    st' := LongCall(st, i).0;
  }

  lemma ParseSeparate(st: State, i: Input, item: Item) returns (st': State)
    requires st.Clean() && Valid(item, i) && Ahead(st, i, Rendered(item, i.longs)) && item.LongSeparate?
    ensures ParsesLong(st, i, item, st')
  {
    hide ParseAll, FindLong, KindOf, ShortCall, Find, LongCall, Parses;
    AheadAt(st, i, Rendered(item, i.longs), 0);
    AheadAt(st, i, Rendered(item, i.longs), 1);
    TakesLong(st, i, item.k, i.longs[item.k].name, None);
    ParsesOne(st, i);
    st' := LongCall(st, i).0;
  }

  lemma ParseItem(st: State, i: Input, item: Item) returns (st': State)
    requires st.Clean() && Valid(item, i) && Ahead(st, i, Rendered(item, i.longs))
    requires st.optind + |Rendered(item, i.longs)| < |i.argv| || !LosesTail(item)
    ensures Parses(st, i, Expected(item, i.longs), st')
    ensures st'.optind == st.optind + |Rendered(item, i.longs)| && st'.Clean()
    ensures st'.flags == Stored(item, i.longs, st.flags)
  {
    if IsCluster(item) {
      st' := ParseClusterItem(st, i, item);
    } else if item.LongPlain? {
      st' := ParsePlain(st, i, item);
    } else if item.LongInline? {
      st' := ParseInline(st, i, item);
    } else {
      st' := ParseSeparate(st, i, item);
    }
  }

  // ---- Whole command lines -----------------------------------------------------------

  predicate AllValid(items: seq<Item>, i: Input) {
    forall j :: 0 <= j < |items| ==> Valid(items[j], i)
  }

  function RenderedAll(items: seq<Item>, i: Input): seq<CString>
    requires AllValid(items, i)
  {
    if |items| == 0 then [] else Rendered(items[0], i.longs) + RenderedAll(items[1..], i)
  }

  function ExpectedAll(items: seq<Item>, i: Input): seq<Event>
    requires AllValid(items, i)
  {
    if |items| == 0 then [] else Expected(items[0], i.longs) + ExpectedAll(items[1..], i)
  }

  function StoredAll(items: seq<Item>, i: Input, flags: map<nat, int>): map<nat, int>
    requires AllValid(items, i)
  {
    if |items| == 0 then flags else StoredAll(items[1..], i, Stored(items[0], i.longs, flags))
  }

  lemma {:induction false} ParseItems(st: State, i: Input, items: seq<Item>) returns (st': State)
    requires st.Clean() && AllValid(items, i) && Ahead(st, i, RenderedAll(items, i))
    requires |items| > 0 && LosesTail(items[|items| - 1]) ==> st.optind + |RenderedAll(items, i)| < |i.argv|
    ensures Parses(st, i, ExpectedAll(items, i), st')
    ensures st'.optind == st.optind + |RenderedAll(items, i)| && st'.Clean()
    ensures st'.flags == StoredAll(items, i, st.flags)
    decreases |items|
  {
    hide Rendered, Expected, Stored, ParseAll, LosesTail, KindOf, FindLong;
    if |items| == 0 {
      ParsesNothing(st, i);
      return st;
    }
    var head, tail := Rendered(items[0], i.longs), RenderedAll(items[1..], i);
    AheadSplit(st, i, head, tail);
    if |items| > 1 {
      RenderedSomething(items[1], i.longs);
    }
    var st1 := ParseItem(st, i, items[0]);
    st' := ParseItems(st1, i, items[1..]);
    ParsesChain(st, i, Expected(items[0], i.longs), st1, ExpectedAll(items[1..], i), st');
  }

  // Where the options of a command line end.
  predicate Stops(tail: seq<CString>) {
    |tail| == 0 || IsOperand(tail[0]) || IsSeparator(tail[0])
  }

  // A command line: the program's name, the options, and the rest.
  predicate CommandLine(i: Input, items: seq<Item>, tail: seq<CString>) {
    && AllValid(items, i) && Stops(tail) && |i.argv| > 0
    && i.argv[1..] == RenderedAll(items, i) + tail
  }

  // Options and what follows them, among the arguments behind the name.
  lemma SplitArguments(argv: seq<CString>, options: seq<CString>, tail: seq<CString>)
    requires |argv| > 0 && argv[1..] == options + tail
    ensures |argv| == 1 + |options| + |tail| && argv[1..1 + |options|] == options
    ensures |tail| > 0 ==> argv[1 + |options|] == tail[0]
  {
    var behind := argv[1..];
    assert behind[..|options|] == options;
    assert argv[1..1 + |options|] == behind[..|options|];
    if |tail| > 0 {
      assert argv[1 + |options|] == behind[|options|];
    }
  }

  // Looping getopt_long over a rendered command line recovers its options and
  // their values, stops at the operands, and leaves no cluster half read, so
  // that setting optind is enough for the next parse.
  lemma RoundTrip(st: State, i: Input, items: seq<Item>, tail: seq<CString>)
    requires st.optind == 1 && st.Clean() && CommandLine(i, items, tail)
    requires |tail| > 0 || |items| == 0 || !LosesTail(items[|items| - 1])
    ensures var (events, final) := ParseAll(st, i);
      && events == ExpectedAll(items, i)
      && final.flags == StoredAll(items, i, st.flags)
      && final.Clean()
      && final.optind == 1 + |RenderedAll(items, i)| + (if |tail| > 0 && IsSeparator(tail[0]) then 1 else 0)
  {
    hide ParseAll, KindOf, LosesTail, Rendered, Expected, RenderedAll, ExpectedAll, StoredAll;
    var options := RenderedAll(items, i);
    SplitArguments(i.argv, options, tail);
    var st' := ParseItems(st, i, items);
    StopsAt(st', i, tail);
  }

  // In front of what is no option, the loop ends.
  lemma StopsAt(st: State, i: Input, tail: seq<CString>)
    requires st.Clean() && Stops(tail) && st.optind + |tail| == |i.argv|
    requires |tail| > 0 ==> i.argv[st.optind] == tail[0]
    ensures ParseAll(st, i)
         == ([], st.(optind := st.optind + if |tail| > 0 && IsSeparator(tail[0]) then 1 else 0))
  {
  }

  // The tail of a cluster at the very end is lost: the loop sees its first
  // letter only, and the rest stays behind for the next parse to trip over.
  lemma TailLost(st: State, i: Input, items: seq<Item>, last: Item)
    requires st.optind == 1 && st.Clean() && CommandLine(i, items + [last], []) && LosesTail(last)
    ensures Valid(last, i) && AllValid(items, i) && |Expected(last, i.longs)| > 1
    ensures var (events, final) := ParseAll(st, i);
      events == ExpectedAll(items, i) + Expected(last, i.longs)[..1] && !final.Clean()
  {
    assert Valid((items + [last])[|items|], i);
    assert forall j :: 0 <= j < |items| ==> items[j] == (items + [last])[j];
    hide ParseAll, KindOf, Valid, LosesTail, Rendered, Expected;
    RenderedAllAppend(items, last, i);
    var options := RenderedAll(items, i);
    LastLosesTail(last, i);
    assert RenderedAll(items + [last], i) + [] == options + Rendered(last, i.longs);
    SplitArguments(i.argv, options, Rendered(last, i.longs));
    var st' := ParseItems(st, i, items);
    var st2 := FirstLetterOnly(st', i, last);
    NothingLeft(st2, i);
    ParsesChain(st, i, ExpectedAll(items, i), st', Expected(last, i.longs)[..1], st2);
  }

  lemma LastLosesTail(last: Item, i: Input)
    requires Valid(last, i) && LosesTail(last)
    ensures |Rendered(last, i.longs)| == 1 && |Expected(last, i.longs)| > 1
  {
  }

  lemma FirstLetterOnly(st: State, i: Input, last: Item) returns (st': State)
    requires st.Clean() && st.optind + 1 == |i.argv| && Valid(last, i) && LosesTail(last)
    requires i.argv[st.optind] == Rendered(last, i.longs)[0]
    ensures |Expected(last, i.longs)| > 1 && Parses(st, i, Expected(last, i.longs)[..1], st')
    ensures st'.optind == |i.argv| && !st'.Clean()
  {
    var letters, text := last.letters, ClusterText(last, i.longs);
    ClusterRendered(last, i);
    assert text[0] == letters[0] && letters[0] in letters;
    ClusterBegins(st, i, text);
    ParsesOne(st, i);
    st' := LongCall(st, i).0;
    assert st'.next == Some(Rest(text)) && Rest(text)[0] == text[1];
    assert Expected(last, i.longs)[..1] == [Event(letters[0], None)];
  }

  lemma NothingLeft(st: State, i: Input)
    requires st.optind == |i.argv|
    ensures ParseAll(st, i) == ([], st)
  {
  }

  lemma {:induction false} RenderedAllAppend(items: seq<Item>, last: Item, i: Input)
    requires AllValid(items + [last], i) && AllValid(items, i) && Valid(last, i)
    ensures RenderedAll(items + [last], i) == RenderedAll(items, i) + Rendered(last, i.longs)
    ensures ExpectedAll(items + [last], i) == ExpectedAll(items, i) + Expected(last, i.longs)
  {
    if |items| > 0 {
      assert (items + [last])[1..] == items[1..] + [last];
      RenderedAllAppend(items[1..], last, i);
    }
  }

  // With no operand behind the options, the round trip holds exactly when the
  // last item is not a cluster that still has something to be read after its
  // first letter.
  lemma RoundTripAtEnd(st: State, i: Input, items: seq<Item>)
    requires st.optind == 1 && st.Clean() && CommandLine(i, items, [])
    ensures ParseAll(st, i).0 == ExpectedAll(items, i) <==> |items| == 0 || !LosesTail(items[|items| - 1])
  {
    if |items| > 0 && LosesTail(items[|items| - 1]) {
      var front, last := items[..|items| - 1], items[|items| - 1];
      assert items == front + [last];
      TailLost(st, i, front, last);
      RenderedAllAppend(front, last, i);
    } else {
      RoundTrip(st, i, items, []);
    }
  }

  // ---- Tables and return values, in numbers ---------------------------------------------

  // An option string declares a letter where it stands, with an argument if a
  // colon follows; a colon in front is none.
  lemma Declared(optstring: CString, before: CString, opt: byte, after: CString)
    requires opt != 0 && opt != 0x3A && opt !in before && optstring == before + [opt] + after
    ensures KindOf(optstring, opt) == if |after| > 0 && after[0] == 0x3A then TakesArgument else Flag
  {
    FindFirst(optstring, opt, FirstOption(optstring), |before|);
    assert |after| > 0 ==> optstring[|before| + 1] == after[0];
  }

  lemma Undeclared(optstring: CString, opt: byte)
    requires opt !in optstring
    ensures KindOf(optstring, opt) == Unknown
  {
  }

  // An unknown letter, and a missing argument, at the start of a cluster.
  lemma FaultsReported(st: State, i: Input, opt: byte, rest: CString)
    requires st.Clean() && st.optind < |i.argv| && opt != 0 && opt != 0x2D
    requires i.argv[st.optind] == Prefixed(ONE_DASH, Prefixed(Letter(opt), rest))
    ensures KindOf(i.optstring, opt) == Unknown ==> LongCall(st, i).1 == 0x3F && LongCall(st, i).0.optopt == opt
    ensures KindOf(i.optstring, opt) == TakesArgument && rest == [] && st.optind + 1 == |i.argv| ==>
              && LongCall(st, i).0.optopt == opt
              && LongCall(st, i).1 == if |i.optstring| > 0 && i.optstring[0] == 0x3A then 0x3A else 0x3F
  {
    var arg := i.argv[st.optind];
    assert arg[0] == 0x2D && arg[1] == opt && Rest(arg)[0] == opt && arg[1..][1..] == rest;
    hide KindOf;
  }

  // Behind the last option -1 comes, at an operand, at two dashes and at the
  // end.
  lemma EndReported(st: State, i: Input)
    requires st.Clean()
    requires st.optind < |i.argv| ==>
               var arg := i.argv[st.optind];
               arg == [] || arg[0] != 0x2D || arg == [0x2D] || arg == [0x2D, 0x2D]
    ensures LongCall(st, i).1 == -1 == ShortCall(st, i).1
  {
  }
}
