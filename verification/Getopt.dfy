// getopt and getopt_long: the option parser of the kernel's builtins and its
// state between calls.
module Getopt {
  import opened Words

  const DASH: byte := 0x2D
  const COLON: byte := 0x3A
  const EQUALS: byte := 0x3D
  const QUESTION: byte := 0x3F
  const DONE: int := -1

  // C strings, without their terminator.
  type CString = s: seq<byte> | 0 !in s

  // Reading a string may go up to its terminator, and no further.
  function At(s: CString, i: nat): byte
    requires i <= |s|
  {
    if i < |s| then s[i] else 0
  }

  datatype HasArg = NoArgument | RequiredArgument | OptionalArgument

  // An entry of the table of long options; a flag is one of the caller's ints.
  datatype LongOption = LongOption(name: CString, hasArg: HasArg, flag: Option<nat>, val: int)

  // What one parse is given.
  datatype Input = Input(argv: seq<CString>, optstring: CString, longs: seq<LongOption>)

  // The globals, the hidden cursor, *longindex unless that pointer is null, and
  // the ints that flags point to.
  datatype State = State(optind: nat, optarg: Option<CString>, optopt: int, next: Option<CString>,
                         longindex: Option<int>, flags: map<nat, int>)
  {
    // No cluster is half read.
    predicate Clean() {
      next.None? || next.value == []
    }
  }

  // ---- One call ----------------------------------------------------------------

  // A leading colon asks for silence and is no option.
  function FirstOption(optstring: CString): nat
    ensures FirstOption(optstring) <= |optstring|
  {
    if At(optstring, 0) == COLON then 1 else 0
  }

  datatype Kind = Unknown | Flag | TakesArgument

  function KindOf(optstring: CString, opt: byte): Kind {
    match Find(optstring, opt, FirstOption(optstring))
    case None => Unknown
    case Some(p) => if At(optstring, p + 1) == COLON then TakesArgument else Flag
  }

  function Missing(optstring: CString): int {
    if At(optstring, 0) == COLON then COLON else QUESTION
  }

  // An argument that ends the options, and the two-dash separator.
  predicate IsOperand(arg: CString) {
    At(arg, 0) != DASH || At(arg, 1) == 0
  }

  predicate IsSeparator(arg: CString) {
    |arg| == 2 && arg[0] == DASH && arg[1] == DASH
  }

  predicate IsLong(arg: CString) {
    |arg| >= 2 && arg[0] == DASH && arg[1] == DASH
  }

  // The rest of getopt, once the cursor is on an option character.
  function TakeOption(st: State, i: Input): (r: (State, int))
    requires !st.Clean()
  {
    var opt, rest := st.next.value[0], Rest(st.next.value);
    match KindOf(i.optstring, opt)
    case Unknown => (st.(optopt := opt, next := Some(rest)), QUESTION)
    case Flag => (st.(optarg := None, next := Some(rest)), opt)
    case TakesArgument =>
      if rest != [] then (st.(optarg := Some(rest), next := None), opt)
      else if st.optind < |i.argv| then
        (st.(optarg := Some(i.argv[st.optind]), optind := st.optind + 1, next := None), opt)
      else (st.(optopt := opt, next := None), Missing(i.optstring))
  }

  function Rest(s: CString): CString
    requires |s| > 0
  {
    s[1..]
  }

  function ShortCall(st: State, i: Input): (r: (State, int)) {
    if st.optind >= |i.argv| then (st, DONE)
    else if !st.Clean() then TakeOption(st, i)
    else
      var arg := i.argv[st.optind];
      if IsOperand(arg) then (st, DONE)
      else if IsSeparator(arg) then (st.(optind := st.optind + 1), DONE)
      else if IsLong(arg) then (st, DONE)
      else TakeOption(st.(next := Some(Rest(arg)), optind := st.optind + 1), i)
  }

  // The text of a long option up to the equals sign, if there is one.
  function NameLength(text: CString): (n: nat)
    ensures n <= |text|
  {
    match Find(text, EQUALS, 0)
    case None => |text|
    case Some(p) => p
  }

  // The first table entry with exactly that name.
  function FindLong(longs: seq<LongOption>, name: seq<byte>, start: nat): (k: Option<nat>)
    requires start <= |longs|
    ensures k.Some? ==> start <= k.value < |longs| && longs[k.value].name == name
    ensures forall j :: start <= j < (if k.Some? then k.value else |longs|) ==> longs[j].name != name
    decreases |longs| - start
  {
    if start == |longs| then None
    else if longs[start].name == name then Some(start)
    else FindLong(longs, name, start + 1)
  }

  function TakeLong(st: State, i: Input, text: CString): (State, int)
    requires st.optind < |i.argv|
  {
    var n := NameLength(text);
    var moved := st.(optind := st.optind + 1);
    match FindLong(i.longs, text[..n], 0)
    case None => (moved.(optopt := 0), QUESTION)
    case Some(k) => TakeLongArgument(Indexed(moved, k), i, i.longs[k],
                                       if n < |text| then Some(Drop(text, n + 1)) else None)
  }

  function Indexed(st: State, k: nat): State {
    if st.longindex.Some? then st.(longindex := Some(k)) else st
  }

  function Drop(s: CString, n: nat): CString
    requires n <= |s|
  {
    s[n..]
  }

  function TakeLongArgument(st: State, i: Input, lo: LongOption, value: Option<CString>): (State, int) {
    if lo.hasArg == NoArgument then Deliver(st.(optarg := None), lo)
    else if value.Some? then Deliver(st.(optarg := value), lo)
    else if lo.hasArg == OptionalArgument then Deliver(st.(optarg := None), lo)
    else if st.optind < |i.argv| then
      Deliver(st.(optarg := Some(i.argv[st.optind]), optind := st.optind + 1), lo)
    else (st.(optopt := 0), Missing(i.optstring))
  }

  function Deliver(st: State, lo: LongOption): (State, int) {
    match lo.flag
    case Some(f) => (st.(flags := st.flags[f := lo.val]), 0)
    case None => (st, lo.val)
  }

  function LongCall(st: State, i: Input): (r: (State, int)) {
    if st.optind >= |i.argv| then (st, DONE)
    else if !st.Clean() then ShortCall(st, i)
    else
      var arg := i.argv[st.optind];
      if IsOperand(arg) then (st, DONE)
      else if IsSeparator(arg) then (st.(optind := st.optind + 1), DONE)
      else if IsLong(arg) then TakeLong(st, i, Drop(arg, 2))
      else ShortCall(st, i)
  }

  function Pending(st: State): nat {
    if st.next.Some? then |st.next.value| else 0
  }

  // Every call that does not end the loop makes progress, whatever the input:
  // it moves optind on, or leaves it and shortens the cluster under way.
  lemma CallsMakeProgress(st: State, i: Input)
    requires st.optind <= |i.argv|
    ensures var (st', ret) := LongCall(st, i);
      && st.optind <= st'.optind <= |i.argv|
      && (ret != DONE ==> st'.optind > st.optind || Pending(st') < Pending(st))
  {
  }

  lemma ShortCallsMakeProgress(st: State, i: Input)
    requires st.optind <= |i.argv|
    ensures var (st', ret) := ShortCall(st, i);
      && st.optind <= st'.optind <= |i.argv|
      && (ret != DONE ==> st'.optind > st.optind || Pending(st') < Pending(st))
  {
  }

  // ---- The parsing loop ----------------------------------------------------------

  datatype Event = Event(ret: int, optarg: Option<CString>)

  // Calling getopt_long until it returns -1: what is seen after each call, and
  // the state the loop leaves.
  function ParseAll(st: State, i: Input): (r: (seq<Event>, State))
    requires st.optind <= |i.argv|
    decreases |i.argv| - st.optind, Pending(st)
  {
    CallsMakeProgress(st, i);
    var (st', ret) := LongCall(st, i);
    if ret == DONE then ([], st')
    else
      var (events, final) := ParseAll(st', i);
      ([Event(ret, st'.optarg)] + events, final)
  }

  // The same loop over getopt.
  function ParseShort(st: State, i: Input): (r: (seq<Event>, State))
    requires st.optind <= |i.argv|
    decreases |i.argv| - st.optind, Pending(st)
  {
    ShortCallsMakeProgress(st, i);
    var (st', ret) := ShortCall(st, i);
    if ret == DONE then ([], st')
    else
      var (events, final) := ParseShort(st', i);
      ([Event(ret, st'.optarg)] + events, final)
  }

  // Nothing that is still to be looked at is a long option.
  predicate OnlyShort(st: State, i: Input) {
    forall j :: st.optind <= j < |i.argv| && IsLong(i.argv[j]) ==> IsSeparator(i.argv[j])
  }

  // Without long options both loops see the same, so that what is known of
  // the one holds of the other.
  lemma {:induction false} LoopsAgree(st: State, i: Input)
    requires st.optind <= |i.argv| && OnlyShort(st, i)
    ensures ParseShort(st, i) == ParseAll(st, i)
    decreases |i.argv| - st.optind, Pending(st)
  {
    assert ShortCall(st, i) == LongCall(st, i);
    hide ShortCall, LongCall, IsLong, IsSeparator;
    ShortCallsMakeProgress(st, i);
    var (st', ret) := ShortCall(st, i);
    if ret != DONE {
      LoopsAgree(st', i);
    }
  }

  // ---- The parser itself -----------------------------------------------------------

  function CutAt(s: CString, n: nat): CString {
    s[..Least(n, |s|)]
  }

  // The position of an option in the option string.
  method FindShort(optstring: CString, opt: byte) returns (p: Option<nat>)
    requires opt != 0
    ensures p == Find(optstring, opt, FirstOption(optstring))
  {
    var j := FirstOption(optstring);
    while At(optstring, j) != 0
      invariant j <= |optstring|
      invariant Find(optstring, opt, FirstOption(optstring)) == Find(optstring, opt, j)
      decreases |optstring| - j
    {
      if At(optstring, j) == opt {
        return Some(j);
      }
      j := j + 1;
    }
    return None;
  }

  // No string is read past its terminator.
  method Strncmp(a: CString, b: CString, n: nat) returns (order: int)
    ensures order == 0 <==> CutAt(a, n) == CutAt(b, n)
  {
    var j := 0;
    while j < n && At(a, j) != 0 && At(a, j) == At(b, j)
      invariant j <= n && j <= |a| && j <= |b|
      invariant a[..j] == b[..j]
      decreases n - j
    {
      j := j + 1;
    }
    if j == n {
      return 0;
    }
    if At(a, j) == At(b, j) {
      assert a == a[..j] == b[..j] == b;
    } else if j < |a| && j < |b| {
      assert CutAt(a, n)[j] != CutAt(b, n)[j];
    }
    return At(a, j) - At(b, j);
  }

  // The first entry whose name is the text before the equals sign. A name
  // that is shorter than that text differs before its terminator is passed.
  method LookUp(longs: seq<LongOption>, text: CString, length: nat) returns (k: Option<nat>)
    requires length <= |text|
    ensures k == FindLong(longs, text[..length], 0)
  {
    var j := 0;
    while j < |longs|
      invariant j <= |longs| && FindLong(longs, text[..length], 0) == FindLong(longs, text[..length], j)
    {
      var order := Strncmp(longs[j].name, text, length);
      assert order == 0 && |longs[j].name| == length ==> longs[j].name == CutAt(longs[j].name, length);
      if order == 0 && At(longs[j].name, length) == 0 {
        return Some(j);
      }
      j := j + 1;
    }
    return None;
  }

  method MeasureName(text: CString) returns (equals: Option<nat>, length: nat)
    ensures equals == Find(text, EQUALS, 0) && length == NameLength(text)
  {
    var j := 0;
    while At(text, j) != 0
      invariant j <= |text| && Find(text, EQUALS, 0) == Find(text, EQUALS, j)
      decreases |text| - j
    {
      if At(text, j) == EQUALS {
        return Some(j), j;
      }
      j := j + 1;
    }
    return None, |text|;
  }

  class Parser {
    var optind: nat
    var optarg: Option<CString>
    var optopt: int
    var next: Option<CString>
    var longindex: Option<int>
    var flags: map<nat, int>

    function Now(): State
      reads this
    {
      State(optind, optarg, optopt, next, longindex, flags)
    }

    constructor ()
      ensures Now() == State(1, None, 0, None, None, map[])
    {
      optind, optarg, optopt, next, longindex, flags := 1, None, 0, None, None, map[];
    }

    method Getopt(i: Input) returns (ret: int)
      modifies this
      ensures (Now(), ret) == ShortCall(old(Now()), i)
    {
      hide Find;
      if optind >= |i.argv| {
        return DONE;
      }
      if next.None? || At(next.value, 0) == 0 {
        var arg := i.argv[optind];
        if At(arg, 0) != DASH || At(arg, 1) == 0 {
          return DONE;
        }
        if At(arg, 1) == DASH && At(arg, 2) == 0 {
          optind := optind + 1;
          return DONE;
        }
        if At(arg, 1) == DASH {
          return DONE;
        }
        next := Some(Rest(arg));
        optind := optind + 1;
      }
      var opt := At(next.value, 0);
      next := Some(Rest(next.value));
      var p := FindShort(i.optstring, opt);
      if p.None? {
        optopt := opt;
        return QUESTION;
      }
      if At(i.optstring, p.value + 1) == COLON {
        if At(next.value, 0) != 0 {
          optarg := next;
          next := None;
        } else if optind < |i.argv| {
          optarg := Some(i.argv[optind]);
          optind := optind + 1;
          next := None;
        } else {
          optopt := opt;
          next := None;
          return if At(i.optstring, 0) == COLON then COLON else QUESTION;
        }
      } else {
        optarg := None;
      }
      return opt;
    }

    method GetoptLong(i: Input) returns (ret: int)
      modifies this
      ensures (Now(), ret) == LongCall(old(Now()), i)
    {
      hide Find, TakeOption, FindLong, ShortCall;
      if optind >= |i.argv| {
        return DONE;
      }
      if next.Some? && At(next.value, 0) != 0 {
        ret := Getopt(i);
        return;
      }
      var arg := i.argv[optind];
      if At(arg, 0) != DASH || At(arg, 1) == 0 {
        return DONE;
      }
      if At(arg, 1) == DASH && At(arg, 2) == 0 {
        optind := optind + 1;
        return DONE;
      }
      if At(arg, 1) != DASH {
        ret := Getopt(i);
        return;
      }
      var name := Drop(arg, 2);
      var equals, length := MeasureName(name);
      var found := LookUp(i.longs, name, length);
      optind := optind + 1;
      if found.None? {
        optopt := 0;
        return QUESTION;
      }
      if longindex.Some? {
        longindex := Some(found.value);
      }
      var lo := i.longs[found.value];
      if lo.hasArg.RequiredArgument? || lo.hasArg.OptionalArgument? {
        if equals.Some? {
          optarg := Some(Drop(name, equals.value + 1));
        } else if lo.hasArg.RequiredArgument? && optind < |i.argv| {
          optarg := Some(i.argv[optind]);
          optind := optind + 1;
        } else if lo.hasArg.RequiredArgument? {
          optopt := 0;
          return if At(i.optstring, 0) == COLON then COLON else QUESTION;
        } else {
          optarg := None;
        }
      } else {
        optarg := None;
      }
      if lo.flag.Some? {
        flags := flags[lo.flag.value := lo.val];
        return 0;
      }
      return lo.val;
    }

    // The loop every builtin runs: it ends, and sees what ParseAll says.
    method Parse(i: Input) returns (events: seq<Event>)
      requires optind <= |i.argv|
      modifies this
      ensures events == ParseAll(old(Now()), i).0 && Now() == ParseAll(old(Now()), i).1
    {
      hide LongCall;
      events := [];
      while true
        invariant optind <= |i.argv|
        invariant ParseAll(old(Now()), i).0 == events + ParseAll(Now(), i).0
        invariant ParseAll(old(Now()), i).1 == ParseAll(Now(), i).1
        decreases |i.argv| - optind, Pending(Now())
      {
        CallsMakeProgress(Now(), i);
        var ret := GetoptLong(i);
        if ret == DONE {
          return;
        }
        events := events + [Event(ret, optarg)];
      }
    }

    method ParseShortOptions(i: Input) returns (events: seq<Event>)
      requires optind <= |i.argv|
      modifies this
      ensures events == ParseShort(old(Now()), i).0 && Now() == ParseShort(old(Now()), i).1
    {
      hide ShortCall;
      events := [];
      while true
        invariant optind <= |i.argv|
        invariant ParseShort(old(Now()), i).0 == events + ParseShort(Now(), i).0
        invariant ParseShort(old(Now()), i).1 == ParseShort(Now(), i).1
        decreases |i.argv| - optind, Pending(Now())
      {
        ShortCallsMakeProgress(Now(), i);
        var ret := Getopt(i);
        if ret == DONE {
          return;
        }
        events := events + [Event(ret, optarg)];
      }
    }
  }
}
