// The kernel's shell: the line editor over a fixed buffer, and the tokenizer
// that cuts the line into arguments inside that buffer.
module Shell {
  import opened Words

  const CAPACITY := 64
  const MAX_ARGUMENTS := 16
  const BACKSPACE: byte := 0x08
  const NEWLINE: byte := 0x0A
  const SPACE: byte := 0x20

  // ---- Reference: lines, and the fields of a line --------------------------------

  function Edit(line: seq<byte>, key: byte): seq<byte> {
    if key == BACKSPACE then (if line == [] then [] else line[..|line| - 1])
    else if |line| < CAPACITY - 1 then line + [key]
    else line
  }

  // The line that a run of keys leaves.
  function Edited(line: seq<byte>, keys: seq<byte>): seq<byte>
    decreases |keys|
  {
    if keys == [] then line else Edited(Edit(line, keys[0]), keys[1..])
  }

  // A line as a C string ends at its first NUL.
  function UpToNul(line: seq<byte>): (s: seq<byte>)
    ensures |s| <= |line| && s == line[..|s|] && 0 !in s
    ensures |s| < |line| ==> line[|s|] == 0
  {
    if line == [] || line[0] == 0 then [] else [line[0]] + UpToNul(line[1..])
  }

  function WordLength(s: seq<byte>): (n: nat)
    ensures n <= |s| && SPACE !in s[..n]
    ensures n < |s| ==> s[n] == SPACE
  {
    if s == [] || s[0] == SPACE then 0 else
      var n := WordLength(s[1..]);
      assert s[..n + 1] == [s[0]] + s[1..][..n];
      n + 1
  }

  // The maximal runs without a space, in order.
  function Fields(s: seq<byte>): (fields: seq<seq<byte>>)
    decreases |s|
  {
    if s == [] then []
    else if s[0] == SPACE then Fields(s[1..])
    else [s[..WordLength(s)]] + Fields(s[WordLength(s)..])
  }

  function Arguments(line: seq<byte>): seq<seq<byte>> {
    var fields := Fields(UpToNul(line));
    fields[..Least(MAX_ARGUMENTS, |fields|)]
  }

  predicate IsField(s: seq<byte>) {
    s != [] && 0x20 !in s
  }

  // Fields written one after the other, each behind some spaces of its own.
  function Spaces(n: nat): seq<byte> {
    if n == 0 then [] else [0x20] + Spaces(n - 1)
  }

  function Written(fields: seq<seq<byte>>, gaps: seq<nat>): seq<byte>
    requires |gaps| == |fields|
  {
    if fields == [] then [] else Spaces(gaps[0]) + fields[0] + Written(fields[1..], gaps[1..])
  }

  // Whatever the spacing, the fields of a written line are those written.
  lemma {:induction false} FieldsOfWritten(fields: seq<seq<byte>>, gaps: seq<nat>, behind: nat)
    requires |gaps| == |fields|
    requires forall j :: 0 <= j < |fields| ==> IsField(fields[j]) && (j > 0 ==> gaps[j] > 0)
    ensures Fields(Written(fields, gaps) + Spaces(behind)) == fields
    decreases |fields|, if fields == [] then behind else gaps[0]
  {
    if fields == [] {
      OnlySpaces(behind);
      assert Written(fields, gaps) + Spaces(behind) == Spaces(behind);
    } else {
      var rest := Written(fields[1..], gaps[1..]) + Spaces(behind);
      assert Written(fields, gaps) + Spaces(behind) == Spaces(gaps[0]) + (fields[0] + rest);
      SkipSpaces(gaps[0], fields[0] + rest);
      assert rest != [] ==> rest[0] == SPACE;
      OneField(fields[0], rest);
      FieldsOfWritten(fields[1..], gaps[1..], behind);
    }
  }

  lemma {:induction false} OnlySpaces(n: nat)
    ensures Fields(Spaces(n)) == []
  {
    if n > 0 {
      assert Spaces(n)[1..] == Spaces(n - 1);
      OnlySpaces(n - 1);
    }
  }

  lemma {:induction false} SkipSpaces(n: nat, s: seq<byte>)
    ensures Fields(Spaces(n) + s) == Fields(s)
  {
    if n == 0 {
      assert Spaces(n) + s == s;
    } else {
      assert (Spaces(n) + s)[1..] == Spaces(n - 1) + s;
      SkipSpaces(n - 1, s);
    }
  }

  lemma {:induction false} WordEnds(word: seq<byte>, rest: seq<byte>)
    requires SPACE !in word && (rest == [] || rest[0] == SPACE)
    ensures WordLength(word + rest) == |word| && (word + rest)[..|word|] == word
  {
    if word != [] {
      assert (word + rest)[1..] == word[1..] + rest && word[0] in word;
      WordEnds(word[1..], rest);
    }
  }

  lemma {:induction false} TextTyped(line: seq<byte>, text: seq<byte>)
    requires 0x08 !in text && |line| + |text| <= 63
    ensures Edited(line, text) == line + text
    decreases |text|
  {
    if text == [] {
      assert line + text == line;
    } else {
      assert text[0] in text && forall c :: c in text[1..] ==> c in text;
      TextTyped(line + [text[0]], text[1..]);
      assert line + [text[0]] + text[1..] == line + text;
    }
  }

  lemma {:induction false} TextErased(line: seq<byte>, n: nat)
    requires n <= |line|
    ensures Edited(line, Backspaces(n)) == line[..|line| - n]
    decreases n
  {
    if n > 0 {
      assert Backspaces(n)[1..] == Backspaces(n - 1);
      TextErased(line[..|line| - 1], n - 1);
    }
  }

  function Backspaces(n: nat): seq<byte> {
    seq(n, _ => 0x08)
  }

  // As many backspaces undo as many characters that fitted in.
  lemma BackspacesUndo(line: seq<byte>, text: seq<byte>)
    requires 0x08 !in text && |line| + |text| <= 63
    ensures Edited(line, text) == line + text
    ensures Edited(line, text + Backspaces(|text|)) == line
  {
    TextTyped(line, text);
    EditedSplit(line, text, Backspaces(|text|));
    TextErased(line + text, |text|);
  }

  // Of a line that is too long the end is lost.
  lemma {:induction false} LongLinesAreCut(line: seq<byte>, text: seq<byte>)
    requires 0x08 !in text && |line| <= 63 <= |line| + |text|
    ensures Edited(line, text) == (line + text)[..63]
    decreases |text|
  {
    if text == [] {
      assert line + text == line;
    } else {
      assert text[0] in text && forall c :: c in text[1..] ==> c in text;
      if |line| < 63 {
        LongLinesAreCut(line + [text[0]], text[1..]);
        assert line + [text[0]] + text[1..] == line + text;
      } else {
        LongLinesAreCut(line, text[1..]);
      }
    }
  }

  lemma {:induction false} EditedSplit(line: seq<byte>, keys: seq<byte>, more: seq<byte>)
    ensures Edited(line, keys + more) == Edited(Edited(line, keys), more)
    decreases |keys|
  {
    if keys == [] {
      assert keys + more == more;
    } else {
      assert (keys + more)[1..] == keys[1..] + more;
      EditedSplit(Edit(line, keys[0]), keys[1..], more);
    }
  }

  // ---- C strings inside the buffer ----------------------------------------------

  // A C string starts at that offset.
  ghost predicate StringAt(b: seq<byte>, offset: nat, s: seq<byte>) {
    && offset + |s| < |b| && b[offset..offset + |s|] == s
    && 0 !in s && b[offset + |s|] == 0
  }

  // Reading from an offset up to the first NUL.
  function ReadString(b: seq<byte>, offset: nat): seq<byte>
    requires offset < |b|
  {
    UpToNul(b[offset..])
  }

  lemma {:induction false} FirstNul(s: seq<byte>, n: nat)
    requires n < |s| && 0 !in s[..n] && s[n] == 0
    ensures UpToNul(s) == s[..n]
  {
    if n > 0 {
      assert s[0] == s[..n][0];
      assert s[1..][..n - 1] == s[..n][1..];
      assert s[..n] == [s[0]] + s[..n][1..];
      FirstNul(s[1..], n - 1);
    }
  }

  lemma StringIsRead(b: seq<byte>, offset: nat, s: seq<byte>)
    requires StringAt(b, offset, s)
    ensures ReadString(b, offset) == s
  {
    assert b[offset..][..|s|] == s;
    FirstNul(b[offset..], |s|);
  }

  // A terminator written behind the end of a string leaves that string alone.
  lemma LaterTerminators(b: seq<byte>, offset: nat, s: seq<byte>, p: nat)
    requires StringAt(b, offset, s) && offset + |s| < p < |b|
    ensures StringAt(b[p := 0], offset, s)
  {
    var b' := b[p := 0];
    assert b'[offset..offset + |s|] == b[offset..offset + |s|];
  }

  // ---- Commands -------------------------------------------------------------------

  datatype Command =
    | Builtin(index: nat, arguments: seq<seq<byte>>)
    | NotFound(name: seq<byte>)

  // What entering a line should run; nothing when it has no fields.
  function Entered(table: seq<seq<byte>>, line: seq<byte>): seq<Command> {
    var arguments := Arguments(line);
    if arguments == [] then [] else
      match Find(table, arguments[0], 0)
      case Some(k) => [Builtin(k, arguments)]
      case None => [NotFound(arguments[0])]
  }

  // The commands of a session: one for each newline, from the line edited
  // since the one before it.
  function Session(table: seq<seq<byte>>, line: seq<byte>, keys: seq<byte>): (r: (seq<Command>, seq<byte>))
    decreases |keys|
  {
    if keys == [] then ([], line)
    else if keys[0] == NEWLINE then
      var (later, left) := Session(table, [], keys[1..]);
      (Entered(table, line) + later, left)
    else Session(table, Edit(line, keys[0]), keys[1..])
  }

  // A newline ends exactly the line it follows.
  lemma {:induction false} SessionOfLine(table: seq<seq<byte>>, line: seq<byte>, keys: seq<byte>, more: seq<byte>)
    requires 0x0A !in keys
    ensures Session(table, line, keys + [0x0A] + more)
         == (Entered(table, Edited(line, keys)) + Session(table, [], more).0, Session(table, [], more).1)
    decreases |keys|
  {
    var all := keys + [0x0A] + more;
    if keys == [] {
      assert all[1..] == more;
    } else {
      assert all[1..] == keys[1..] + [0x0A] + more && keys[0] in keys;
      assert forall c :: c in keys[1..] ==> c in keys;
      SessionOfLine(table, Edit(line, keys[0]), keys[1..], more);
    }
  }

  // What a line of fields runs: the first builtin of that name, with the first
  // sixteen of them.
  lemma EnteredFields(table: seq<seq<byte>>, fields: seq<seq<byte>>, gaps: seq<nat>, behind: nat)
    requires |gaps| == |fields| && 0 !in Written(fields, gaps) + Spaces(behind)
    requires forall j :: 0 <= j < |fields| ==> IsField(fields[j]) && (j > 0 ==> gaps[j] > 0)
    ensures var commands := Entered(table, Written(fields, gaps) + Spaces(behind));
      && (fields == [] ==> commands == [])
      && (fields != [] && fields[0] !in table ==> commands == [NotFound(fields[0])])
      && (fields != [] ==> forall k :: 0 <= k < |table| && table[k] == fields[0] && fields[0] !in table[..k] ==>
            commands == [Builtin(k, fields[..Least(16, |fields|)])])
  {
    ArgumentsOfFields(fields, gaps, behind);
    EnteredArguments(table, Written(fields, gaps) + Spaces(behind));
    hide *;
  }

  lemma ArgumentsOfFields(fields: seq<seq<byte>>, gaps: seq<nat>, behind: nat)
    requires |gaps| == |fields| && 0 !in Written(fields, gaps) + Spaces(behind)
    requires forall j :: 0 <= j < |fields| ==> IsField(fields[j]) && (j > 0 ==> gaps[j] > 0)
    ensures Arguments(Written(fields, gaps) + Spaces(behind)) == fields[..Least(16, |fields|)]
  {
    FieldsOfWritten(fields, gaps, behind);
    WithoutNul(Written(fields, gaps) + Spaces(behind));
    hide Fields, UpToNul, Written, Spaces, IsField;
  }

  lemma EnteredArguments(table: seq<seq<byte>>, line: seq<byte>)
    ensures var commands, arguments := Entered(table, line), Arguments(line);
      && (arguments == [] ==> commands == [])
      && (arguments != [] && arguments[0] !in table ==> commands == [NotFound(arguments[0])])
      && (arguments != [] ==> forall k :: 0 <= k < |table| && table[k] == arguments[0] ==>
            arguments[0] !in table[..k] ==> commands == [Builtin(k, arguments)])
  {
    hide Arguments, Find;
    if Arguments(line) != [] {
      FirstOfName(table, Arguments(line)[0]);
    }
  }

  lemma FirstOfName(table: seq<seq<byte>>, name: seq<byte>)
    ensures name !in table ==> Find(table, name, 0) == None
    ensures forall k :: 0 <= k < |table| && table[k] == name && name !in table[..k] ==> Find(table, name, 0) == Some(k)
  {
    var p := Find(table, name, 0);
    forall k | 0 <= k < |table| && table[k] == name && name !in table[..k]
      ensures p == Some(k)
    {
      assert forall j :: 0 <= j < k ==> table[j] == table[..k][j];
    }
  }

  lemma WithoutNul(line: seq<byte>)
    requires 0 !in line
    ensures UpToNul(line) == line
  {
    assert forall i :: 0 <= i < |line| ==> line[i] in line;
  }

  // Typed at the prompt and ended by a newline, such a line runs that.
  lemma SessionOfFields(table: seq<seq<byte>>, fields: seq<seq<byte>>, gaps: seq<nat>, behind: nat, more: seq<byte>)
    requires |gaps| == |fields|
    requires var line := Written(fields, gaps) + Spaces(behind);
      |line| <= 63 && 0 !in line && 0x08 !in line && 0x0A !in line
    requires forall j :: 0 <= j < |fields| ==> IsField(fields[j]) && (j > 0 ==> gaps[j] > 0)
    ensures var commands := Session(table, [], Written(fields, gaps) + Spaces(behind) + [0x0A] + more).0;
      var later := Session(table, [], more).0;
      && (fields == [] ==> commands == later)
      && (fields != [] && fields[0] !in table ==> commands == [NotFound(fields[0])] + later)
      && (fields != [] ==> forall k :: 0 <= k < |table| && table[k] == fields[0] && fields[0] !in table[..k] ==>
            commands == [Builtin(k, fields[..Least(16, |fields|)])] + later)
  {
    var line := Written(fields, gaps) + Spaces(behind);
    SessionOfLine(table, [], line, more);
    TextTyped([], line);
    assert [] + line == line;
    EnteredFields(table, fields, gaps, behind);
    hide Written, Spaces, Entered, Session, Edited, IsField;
  }

  // ---- The shell --------------------------------------------------------------------

  // What the tokenizer has found when it stands at p, in a line s that ended
  // at the NUL at |s|.
  ghost predicate Tokenized(b: seq<byte>, s: seq<byte>, p: nat, argv: seq<nat>, found: seq<seq<byte>>) {
    && p <= |s| < |b| && b[p..|s|] == s[p..] && b[|s|] == 0
    && |argv| == |found| && Fields(s) == found + Fields(s[p..])
    && forall j :: 0 <= j < |argv| ==> Settled(b, |s|, p, argv[j], found[j])
  }

  // The string has its terminator behind p, or nothing is left to be cut.
  ghost predicate Settled(b: seq<byte>, end: nat, p: nat, offset: nat, s: seq<byte>) {
    StringAt(b, offset, s) && (offset + |s| < p || p == end)
  }

  lemma TokenizingStarts(b: seq<byte>, len: nat)
    requires len < |b| && b[len] == 0
    ensures Tokenized(b, UpToNul(b[..len]), 0, [], [])
  {
    var line, s := b[..len], UpToNul(b[..len]);
    assert b[0..|s|] == s == s[0..];
    assert |s| < len ==> b[|s|] == line[|s|];
  }

  lemma SpaceSkipped(b: seq<byte>, s: seq<byte>, p: nat, argv: seq<nat>, found: seq<seq<byte>>)
    requires Tokenized(b, s, p, argv, found) && b[p] == SPACE
    ensures p < |s| && Tokenized(b, s, p + 1, argv, found)
  {
    assert b[p..|s|][0] == SPACE;
    assert s[p..][1..] == s[p + 1..];
    assert b[p..|s|][1..] == b[p + 1..|s|];
  }

  lemma WordStands(b: seq<byte>, s: seq<byte>, start: nat, p: nat)
    requires start < p <= |s| < |b| && b[start..|s|] == s[start..] && b[|s|] == 0 && 0 !in s[start..p]
    ensures StringAt(if p == |s| then b else b[p := 0], start, s[start..p])
    ensures b[p..|s|] == s[p..]
    ensures p < |s| ==> b[p := 0][p + 1..|s|] == s[p + 1..]
  {
    var word, n := s[start..p], p - start;
    assert b[start..p] == b[start..|s|][..n] == s[start..][..n] == word;
    assert b[p..|s|] == b[start..|s|][n..] == s[start..][n..] == s[p..];
    if p < |s| {
      assert b[p := 0][start..p] == b[start..p];
      assert b[p := 0][p + 1..|s|] == b[p..|s|][1..] == s[p..][1..] == s[p + 1..];
    }
  }

  // Cutting behind a word, or reaching the end of the line with it.
  lemma WordCut(b: seq<byte>, s: seq<byte>, start: nat, argv: seq<nat>, found: seq<seq<byte>>, p: nat)
    requires Tokenized(b, s, start, argv, found) && 0 !in s
    requires start < p <= |s| && SPACE !in s[start..p]
    requires p == |s| || s[p] == SPACE
    ensures var word := s[start..p];
      if p == |s| then Tokenized(b, s, p, argv + [start], found + [word])
      else Tokenized(b[p := 0], s, p + 1, argv + [start], found + [word])
  {
    hide Fields, WordLength, StringAt;
    var word, rest := s[start..p], s[p..];
    assert s[start..] == word + rest;
    OneField(word, rest);
    assert forall c :: c in word ==> c in s;
    WordStands(b, s, start, p);
    var b' := if p == |s| then b else b[p := 0];
    var p' := if p == |s| then p else p + 1;
    forall j | 0 <= j < |argv| ensures Settled(b', |s|, p', argv[j], found[j]) {
      assert Settled(b, |s|, start, argv[j], found[j]);
      if p < |s| {
        LaterTerminators(b, argv[j], found[j], p);
      }
    }
    if p < |s| {
      assert rest[1..] == s[p + 1..];
    }
    assert found + ([word] + Fields(s[p'..])) == (found + [word]) + Fields(s[p'..]);
  }

  // A field at the front, and the space behind it.
  lemma OneField(word: seq<byte>, rest: seq<byte>)
    requires IsField(word) && (rest == [] || rest[0] == SPACE)
    ensures Fields(word + rest) == [word] + Fields(rest)
    ensures rest != [] ==> Fields(rest) == Fields(rest[1..])
  {
    WordEnds(word, rest);
    assert word[0] in word && (word + rest)[0] == word[0];
    assert (word + rest)[|word|..] == rest;
  }

  lemma Found(b: seq<byte>, s: seq<byte>, p: nat, argv: seq<nat>, found: seq<seq<byte>>)
    requires Tokenized(b, s, p, argv, found) && |argv| <= MAX_ARGUMENTS
    requires p == |s| || |argv| == MAX_ARGUMENTS
    ensures found == Fields(s)[..Least(MAX_ARGUMENTS, |Fields(s)|)]
    ensures forall j :: 0 <= j < |argv| ==> argv[j] < |b| && ReadString(b, argv[j]) == found[j]
  {
    forall j | 0 <= j < |argv| ensures argv[j] < |b| && ReadString(b, argv[j]) == found[j] {
      assert Settled(b, |s|, p, argv[j], found[j]);
      StringIsRead(b, argv[j], found[j]);
    }
  }

  // Standing inside the line or at its end, as the byte there tells.
  lemma Standing(b: seq<byte>, s: seq<byte>, start: nat, argv: seq<nat>, found: seq<seq<byte>>, p: nat)
    requires Tokenized(b, s, start, argv, found) && 0 !in s && start <= p <= |s|
    ensures b[p] == 0 <==> p == |s|
    ensures p < |s| ==> b[p] == s[p]
  {
    if p < |s| {
      assert b[p] == b[start..|s|][p - start] == s[start..][p - start] == s[p];
      assert s[p] in s;
    }
  }

  class Console {
    const buffer: array<byte>
    var len: nat

    ghost predicate Valid()
      reads this, buffer
    {
      buffer.Length == CAPACITY && len < CAPACITY
    }

    function Line(): seq<byte>
      requires Valid()
      reads this, buffer
    {
      buffer[..len]
    }

    constructor ()
      ensures Valid() && fresh(buffer) && Line() == []
    {
      buffer := new byte[CAPACITY];
      len := 0;
    }

    method Type(key: byte)
      requires Valid() && key != NEWLINE
      modifies this`len, buffer
      ensures Valid() && Line() == Edit(old(Line()), key)
    {
      if key == BACKSPACE {
        if len > 0 {
          len := len - 1;
        }
      } else if len < CAPACITY - 1 {
        buffer[len] := key;
        len := len + 1;
      }
    }

    // Cuts the line into arguments where it stands. Read as C strings in the
    // buffer this leaves, they are the first sixteen fields.
    method Tokenize() returns (argv: seq<nat>)
      requires Valid()
      modifies buffer
      ensures |argv| == |Arguments(old(Line()))| && Valid() && len == old(len)
      ensures forall j :: 0 <= j < |argv| ==>
        argv[j] < buffer.Length && ReadString(buffer[..], argv[j]) == Arguments(old(Line()))[j]
    {
      hide Tokenized, Fields, UpToNul, ReadString;
      ghost var line := Line();
      buffer[len] := 0;
      assert buffer[..][..len] == line;
      if len == 0 {
        NoFields(line);
        return [];
      }
      ghost var s, found := UpToNul(line), [];
      TokenizingStarts(buffer[..], len);
      argv := [];
      var p := 0;
      Standing(buffer[..], s, p, argv, found, p);
      while buffer[p] != 0 && |argv| < MAX_ARGUMENTS
        invariant p <= |s| < buffer.Length && Tokenized(buffer[..], s, p, argv, found)
        invariant |argv| == |found| <= MAX_ARGUMENTS
        invariant buffer[p] == 0 <==> p == |s|
        decreases |s| - p
      {
        while buffer[p] == SPACE
          invariant p <= |s| && Tokenized(buffer[..], s, p, argv, found)
          decreases |s| - p
        {
          SpaceSkipped(buffer[..], s, p, argv, found);
          p := p + 1;
        }
        Standing(buffer[..], s, p, argv, found, p);
        if buffer[p] == 0 {
          break;
        }
        var start := p;
        ghost var before := buffer[..];
        while buffer[p] != 0 && buffer[p] != SPACE
          invariant buffer[..] == before && start <= p <= |s| && SPACE !in s[start..p]
          invariant (buffer[p] == 0 <==> p == |s|) && (p < |s| ==> buffer[p] == s[p])
          decreases |s| - p
        {
          assert s[start..p + 1] == s[start..p] + [s[p]];
          p := p + 1;
          Standing(before, s, start, argv, found, p);
        }
        WordCut(before, s, start, argv, found, p);
        found := found + [s[start..p]];
        argv := argv + [start];
        if buffer[p] != 0 {
          buffer[p] := 0;
          assert buffer[..] == before[p := 0];
          p := p + 1;
        } else {
          assert buffer[..] == before;
        }
        Standing(buffer[..], s, p, argv, found, p);
      }
      Found(buffer[..], s, p, argv, found);
    }

    // Enter: what the dispatcher makes of the line.
    method Execute(table: seq<seq<byte>>) returns (commands: seq<Command>)
      requires Valid()
      modifies buffer
      ensures Valid() && len == old(len)
      ensures commands == Entered(table, old(Line()))
    {
      hide Arguments, ReadString;
      ghost var expected := Arguments(Line());
      var argv := Tokenize();
      if |argv| == 0 {
        return [];
      }
      var arguments := seq(|argv|, j requires 0 <= j < |argv| reads buffer =>
        if argv[j] < buffer.Length then ReadString(buffer[..], argv[j]) else []);
      assert arguments == expected;
      var k := 0;
      while k < |table|
        invariant k <= |table| && Find(table, arguments[0], 0) == Find(table, arguments[0], k)
      {
        if arguments[0] == table[k] {
          return [Builtin(k, arguments)];
        }
        k := k + 1;
      }
      return [NotFound(arguments[0])];
    }

    // The loop of the shell, over any run of keys.
    method Run(table: seq<seq<byte>>, keys: seq<byte>) returns (commands: seq<Command>)
      requires Valid()
      modifies this`len, buffer
      ensures Valid()
      ensures commands == Session(table, old(Line()), keys).0 && Line() == Session(table, old(Line()), keys).1
    {
      hide Entered, Edit;
      commands := [];
      ghost var whole := Session(table, Line(), keys);
      var k := 0;
      assert keys[0..] == keys;
      while k < |keys|
        invariant Valid() && k <= |keys|
        invariant whole.0 == commands + Session(table, Line(), keys[k..]).0
        invariant whole.1 == Session(table, Line(), keys[k..]).1
      {
        assert keys[k..][1..] == keys[k + 1..];
        if keys[k] == NEWLINE {
          var entered := Execute(table);
          len := 0;
          assert Line() == [];
          commands := commands + entered;
        } else {
          Type(keys[k]);
        }
        k := k + 1;
      }
      assert keys[k..] == [];
    }
  }

  lemma NoFields(line: seq<byte>)
    requires line == []
    ensures Arguments(line) == []
  {
    assert UpToNul(line) == [] && Fields([]) == [];
  }
}
