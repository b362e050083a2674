// The 8.3 names of directory entries: how the driver encodes the name it looks
// for, and what such an encoding stands for.
module FatNames {
  import opened Words

  const SPACE: byte := 0x20
  const DOT: byte := 0x2E
  const NAME_SIZE: nat := 11
  const MAX_PATH: nat := 256

  function Upper(c: byte): byte {
    if 0x61 <= c <= 0x7A then c - 0x20 else c
  }

  function AllUpper(s: seq<byte>): seq<byte> {
    seq(|s|, i requires 0 <= i < |s| => Upper(s[i]))
  }

  // Position of the first occurrence of a character, or the length.
  function IndexOf(s: seq<byte>, c: byte): (i: nat)
    ensures i <= |s| && c !in s[..i]
    ensures i < |s| ==> s[i] == c
  {
    if |s| == 0 || s[0] == c then 0
    else
      assert s[..1 + IndexOf(s[1..], c)] == [s[0]] + s[1..][..IndexOf(s[1..], c)];
      1 + IndexOf(s[1..], c)
  }

  // A field of the entry: cut or filled with spaces to its width.
  function Field(s: seq<byte>, width: nat): (f: seq<byte>)
    ensures |f| == width
  {
    seq(width, i requires 0 <= i => if i < |s| then s[i] else SPACE)
  }

  // The 11 bytes FAT_FindFile compares with: base and extension of the name,
  // in upper case.
  function Encoded(name: seq<byte>): (f: seq<byte>)
    ensures |f| == NAME_SIZE
  {
    var dot := IndexOf(name, DOT);
    Field(AllUpper(name[..dot]), 8)
    + Field(AllUpper(if dot < |name| then name[dot + 1..] else []), 3)
  }

  // The characters of a C string, at most n of them.
  function Leading(s: seq<byte>, n: nat): (r: seq<byte>)
    ensures |r| <= n && |r| <= |s| && r == s[..|r|] && 0 !in r
    ensures |r| < n && |r| < |s| ==> s[|r|] == 0
  {
    if n == 0 || s == [] || s[0] == 0 then [] else [s[0]] + Leading(s[1..], n - 1)
  }

  // The driver keeps a name in an array of 256 bytes; behind the terminator
  // are whatever bytes were there before. For a name without a dot the
  // conversion looks for one at offset 11 of the array all the same, and takes
  // what follows it for the extension.
  function StaleExtension(name: seq<byte>, behind: seq<byte>): seq<byte>
    requires |name| + 1 + |behind| == MAX_PATH
  {
    if DOT !in name && |name| < NAME_SIZE && behind[NAME_SIZE - |name| - 1] == DOT
    then Leading(behind[NAME_SIZE - |name|..], 3)
    else []
  }

  // What the conversion makes of a name and the bytes behind it.
  function EncodedIn(name: seq<byte>, behind: seq<byte>): (f: seq<byte>)
    requires |name| + 1 + |behind| == MAX_PATH
    ensures |f| == NAME_SIZE
  {
    if DOT in name then Encoded(name)
    else Field(AllUpper(name), 8) + Field(AllUpper(StaleExtension(name, behind)), 3)
  }

  // No extension is picked up, or only blanks.
  predicate Clean(name: seq<byte>, behind: seq<byte>)
    requires |name| + 1 + |behind| == MAX_PATH
  {
    forall c :: c in StaleExtension(name, behind) ==> c == SPACE
  }

  // The name is encoded as documented exactly when the bytes behind it do not
  // pass for an extension.
  lemma EncodesNameOnly(name: seq<byte>, behind: seq<byte>)
    requires |name| + 1 + |behind| == MAX_PATH
    ensures EncodedIn(name, behind) == Encoded(name) <==> Clean(name, behind)
  {
    if DOT !in name {
      var stale := StaleExtension(name, behind);
      assert IndexOf(name, DOT) == |name| && name[..|name|] == name;
      assert EncodedIn(name, behind)[8..] == Field(AllUpper(stale), 3);
      assert Encoded(name)[8..] == Field([], 3) && EncodedIn(name, behind)[..8] == Encoded(name)[..8];
      BlankField(stale);
      assert EncodedIn(name, behind) == EncodedIn(name, behind)[..8] + EncodedIn(name, behind)[8..];
      assert Encoded(name) == Encoded(name)[..8] + Encoded(name)[8..];
    }
  }

  lemma BlankField(s: seq<byte>)
    requires |s| <= 3
    ensures Field(AllUpper(s), 3) == Field([], 3) <==> forall c :: c in s ==> c == SPACE
  {
    var f, blank := Field(AllUpper(s), 3), Field([], 3);
    if f == blank {
      forall i | 0 <= i < |s| ensures s[i] == SPACE {
        assert f[i] == Upper(s[i]) && blank[i] == SPACE;
      }
    }
    if forall c :: c in s ==> c == SPACE {
      assert forall i :: 0 <= i < |s| ==> s[i] in s;
      assert f == blank;
    }
  }

  // A dot and three letters left at offset 11 turn BOOT into BOOT.BIN.
  lemma StaleDotFound(behind: seq<byte>)
    requires |behind| == MAX_PATH - 5 && behind[6..10] == [DOT, 0x42, 0x49, 0x4E]
    ensures EncodedIn([0x42, 0x4F, 0x4F, 0x54], behind) == Encoded([0x42, 0x4F, 0x4F, 0x54, DOT, 0x42, 0x49, 0x4E])
  {
    var name := [0x42, 0x4F, 0x4F, 0x54];
    var long := [0x42, 0x4F, 0x4F, 0x54, DOT, 0x42, 0x49, 0x4E];
    assert behind[6] == behind[6..10][0] && behind[7] == behind[6..10][1] && behind[8] == behind[6..10][2]
        && behind[9] == behind[6..10][3];
    var ext := behind[7..];
    assert ext[1..][0] == behind[8] && ext[1..][1..][0] == behind[9];
    assert Leading(ext, 3) == [0x42, 0x49, 0x4E] by {
      assert Leading(ext[1..][1..], 1) == [0x4E];
      assert Leading(ext[1..], 2) == [0x49, 0x4E];
    }
    IndexUnique(long, DOT, 4);
    assert long[..4] == name && long[5..] == [0x42, 0x49, 0x4E] && long[4] in long;
  }

  // The array, the place the conversion takes for the dot, and the extension
  // it finds there.
  function Stored(name: seq<byte>, behind: seq<byte>): seq<byte> {
    name + [0] + behind
  }

  function DotPlace(name: seq<byte>): nat {
    if DOT in name then IndexOf(name, DOT) else NAME_SIZE
  }

  function FoundExtension(name: seq<byte>, behind: seq<byte>): (ext: seq<byte>)
    requires |name| + 1 + |behind| == MAX_PATH && DotPlace(name) < MAX_PATH
    ensures |ext| <= 3
  {
    var str, place := Stored(name, behind), DotPlace(name);
    if str[place] == DOT then Leading(str[place + 1..], 3) else []
  }

  lemma FoundIsEncoded(name: seq<byte>, behind: seq<byte>)
    requires |name| + 1 + |behind| == MAX_PATH && 0 !in name
    ensures DotPlace(name) < MAX_PATH && (DOT !in name ==> IndexOf(name, DOT) == |name|)
    ensures EncodedIn(name, behind)
         == Field(AllUpper(name[..IndexOf(name, DOT)]), 8) + Field(AllUpper(FoundExtension(name, behind)), 3)
  {
    hide Field, AllUpper, Leading, IndexOf, EncodedIn, FoundExtension, StaleExtension;
    if DOT in name {
      FoundBehindDot(name, behind);
      EncodedAtDot(name, behind);
    } else {
      FoundStale(name, behind);
      EncodedWithoutDot(name, behind);
    }
  }

  lemma EncodedAtDot(name: seq<byte>, behind: seq<byte>)
    requires |name| + 1 + |behind| == MAX_PATH && DOT in name
    ensures IndexOf(name, DOT) < |name|
    ensures EncodedIn(name, behind)
         == Field(AllUpper(name[..IndexOf(name, DOT)]), 8) + Field(AllUpper(name[IndexOf(name, DOT) + 1..]), 3)
  {
    hide Field, AllUpper;
    assert name == name[..|name|];
  }

  lemma EncodedWithoutDot(name: seq<byte>, behind: seq<byte>)
    requires |name| + 1 + |behind| == MAX_PATH && DOT !in name
    ensures IndexOf(name, DOT) == |name| && name[..IndexOf(name, DOT)] == name
    ensures EncodedIn(name, behind) == Field(AllUpper(name), 8) + Field(AllUpper(StaleExtension(name, behind)), 3)
  {
    hide Field, AllUpper, StaleExtension;
  }

  lemma FoundBehindDot(name: seq<byte>, behind: seq<byte>)
    requires |name| + 1 + |behind| == MAX_PATH && 0 !in name && DOT in name
    ensures IndexOf(name, DOT) < |name|
    ensures Field(AllUpper(FoundExtension(name, behind)), 3) == Field(AllUpper(name[IndexOf(name, DOT) + 1..]), 3)
  {
    hide Field, AllUpper, Leading, Stored;
    var dot := IndexOf(name, DOT);
    assert name == name[..|name|];
    hide IndexOf;
    var ext := name[dot + 1..];
    StoredBehind(name, behind, dot);
    assert forall c :: c in ext ==> c in name;
    LeadingText(ext, [0] + behind, 3);
    FieldCut(ext);
  }

  // The array, from a place in the name on or behind it.
  lemma StoredBehind(name: seq<byte>, behind: seq<byte>, k: nat)
    requires k < |name| + 1 + |behind|
    ensures k < |Stored(name, behind)|
    ensures k < |name| ==>
              Stored(name, behind)[k] == name[k] && Stored(name, behind)[k + 1..] == name[k + 1..] + ([0] + behind)
    ensures k == |name| ==> Stored(name, behind)[k] == 0
    ensures k > |name| ==>
              && Stored(name, behind)[k] == behind[k - |name| - 1]
              && Stored(name, behind)[k + 1..] == behind[k - |name|..]
  {
  }

  lemma FieldCut(s: seq<byte>)
    ensures Field(AllUpper(s[..Least(3, |s|)]), 3) == Field(AllUpper(s), 3)
  {
  }

  // The extension found is what stands behind the dot's place, up to a NUL.
  lemma FoundSpelled(name: seq<byte>, behind: seq<byte>)
    requires |name| + 1 + |behind| == MAX_PATH && 0 !in name
    ensures DotPlace(name) < MAX_PATH
    ensures var str, place, found := Stored(name, behind), DotPlace(name), FoundExtension(name, behind);
      if str[place] != DOT then found == []
      else
        && place + 1 + |found| < MAX_PATH
        && (forall i :: 0 <= i < |found| ==> str[place + 1 + i] == found[i] != 0)
        && (|found| < 3 ==> str[place + 1 + |found|] == 0)
  {
    var str, place, found := Stored(name, behind), DotPlace(name), FoundExtension(name, behind);
    if DOT in name {
      assert name == name[..|name|];
      var ext := name[place + 1..];
      StoredBehind(name, behind, place);
      assert forall c :: c in ext ==> c in name;
      LeadingText(ext, [0] + behind, 3);
    }
    if str[place] == DOT {
      var tail := str[place + 1..];
      assert forall i :: 0 <= i < |found| ==> found[i] == tail[i] && found[i] in found;
    }
  }

  lemma FoundStale(name: seq<byte>, behind: seq<byte>)
    requires |name| + 1 + |behind| == MAX_PATH && 0 !in name && DOT !in name
    ensures FoundExtension(name, behind) == StaleExtension(name, behind)
  {
    StoredBehind(name, behind, NAME_SIZE);
    assert |name| > NAME_SIZE ==> name[NAME_SIZE] in name;
    hide Leading, Stored;
  }

  lemma {:induction false} LeadingText(text: seq<byte>, rest: seq<byte>, n: nat)
    requires 0 !in text && |rest| > 0 && rest[0] == 0
    ensures Leading(text + rest, n) == text[..Least(n, |text|)]
  {
    if n > 0 && text != [] {
      assert text[0] in text && (text + rest)[1..] == text[1..] + rest;
      LeadingText(text[1..], rest, n - 1);
      assert text[..Least(n, |text|)] == [text[0]] + text[1..][..Least(n - 1, |text| - 1)];
    }
  }

  // FAT_FindFile, the conversion: strchr, and two loops that fill fatName.
  method EncodeName(name: seq<byte>, behind: seq<byte>) returns (fatName: array<byte>)
    requires |name| + 1 + |behind| == MAX_PATH && 0 !in name
    ensures fresh(fatName) && fatName.Length == NAME_SIZE
    ensures fatName[..] == EncodedIn(name, behind)
  {
    FoundIsEncoded(name, behind);
    FoundSpelled(name, behind);
    hide EncodedIn, Stored, DotPlace, FoundExtension, Encoded, Leading, StaleExtension, Field, AllUpper;
    fatName := new byte[NAME_SIZE](_ => SPACE);
    var str, ext := Stored(name, behind), DotPlace(name);
    FillBase(fatName, name, behind);
    ghost var found := FoundExtension(name, behind);
    if str[ext] == DOT {
      FillExtension(fatName, str, ext + 1, found);
    } else {
      BlankExtension(fatName[8..]);
    }
    assert fatName[..] == fatName[..8] + fatName[8..];
  }

  lemma BlankExtension(rest: seq<byte>)
    requires |rest| == 3 && forall j :: 0 <= j < 3 ==> rest[j] == SPACE
    ensures rest == Field(AllUpper([]), 3)
  {
  }

  method FillBase(fatName: array<byte>, name: seq<byte>, behind: seq<byte>)
    requires |name| + 1 + |behind| == MAX_PATH && 0 !in name
    requires fatName.Length == NAME_SIZE && (forall j :: 0 <= j < NAME_SIZE ==> fatName[j] == SPACE)
    modifies fatName
    ensures fatName[..8] == Field(AllUpper(name[..IndexOf(name, DOT)]), 8)
    ensures forall j :: 8 <= j < NAME_SIZE ==> fatName[j] == SPACE
  {
    var str, dot, ext := Stored(name, behind), IndexOf(name, DOT), DotPlace(name);
    assert DOT !in name ==> dot == |name|;
    var i := 0;
    while i < 8 && str[i] != 0 && i < ext
      invariant 0 <= i <= 8 && i <= dot
      invariant forall j :: 0 <= j < i ==> fatName[j] == Upper(name[j])
      invariant forall j :: i <= j < NAME_SIZE ==> fatName[j] == SPACE
    {
      InName(name, behind, i);
      fatName[i] := Upper(str[i]);
      i := i + 1;
    }
    InName(name, behind, i);
    assert fatName[..8] == Field(AllUpper(name[..dot]), 8);
  }

  method FillExtension(fatName: array<byte>, str: seq<byte>, from: nat, ghost found: seq<byte>)
    requires fatName.Length == NAME_SIZE && (forall j :: 8 <= j < NAME_SIZE ==> fatName[j] == SPACE)
    requires from + |found| < |str| && |found| <= 3
    requires forall i :: 0 <= i < |found| ==> str[from + i] == found[i] != 0
    requires |found| < 3 ==> str[from + |found|] == 0
    modifies fatName
    ensures fatName[..8] == old(fatName[..8]) && fatName[8..] == Field(AllUpper(found), 3)
  {
    var i := 0;
    while i < 3 && str[from + i] != 0
      invariant 0 <= i <= |found| && (i < |found| ==> str[from + i] == found[i] != 0)
      invariant fatName[..8] == old(fatName[..8])
      invariant forall j :: 8 <= j < 8 + i ==> fatName[j] == Upper(found[j - 8])
      invariant forall j :: 8 + i <= j < NAME_SIZE ==> fatName[j] == SPACE
    {
      fatName[8 + i] := Upper(str[from + i]);
      i := i + 1;
    }
    assert i == |found|;
    ghost var field := Field(AllUpper(found), 3);
    assert forall j :: 8 <= j < NAME_SIZE ==> fatName[j] == field[j - 8];
    assert fatName[8..] == field;
  }

  lemma InName(name: seq<byte>, behind: seq<byte>, i: nat)
    requires |name| + 1 + |behind| == MAX_PATH && 0 !in name && i <= |name|
    ensures Stored(name, behind)[i] != 0 <==> i < |name|
    ensures i < |name| ==> Stored(name, behind)[i] == name[i]
  {
    if i < |name| {
      assert name[i] in name;
    }
  }

  // A name in canonical 8.3 form.
  datatype ShortName = ShortName(base: seq<byte>, ext: seq<byte>) {
    predicate Valid() {
      && |base| <= 8 && |ext| <= 3
      && (forall c :: c in base + ext ==> c != DOT && c != SPACE)
    }

    function Rendered(): seq<byte> {
      if |ext| == 0 then base else base + [DOT] + ext
    }
  }

  // What the 11 bytes of an entry spell.
  function Spelled(raw: seq<byte>): ShortName
    requires |raw| == NAME_SIZE
  {
    ShortName(Trimmed(raw[..8]), Trimmed(raw[8..]))
  }

  function Trimmed(s: seq<byte>): seq<byte> {
    s[..IndexOf(s, SPACE)]
  }

  lemma {:induction false} IndexUnique(s: seq<byte>, c: byte, i: nat)
    requires i <= |s| && c !in s[..i] && (i < |s| ==> s[i] == c)
    ensures IndexOf(s, c) == i
  {
    if i > 0 {
      assert s[0] in s[..i];
      assert s[1..][..i - 1] == s[..i][1..];
      IndexUnique(s[1..], c, i - 1);
    }
  }

  lemma UpperIsNotSpace(s: seq<byte>)
    requires SPACE !in s
    ensures SPACE !in AllUpper(s)
  {
  }

  lemma TrimmedField(s: seq<byte>, width: nat)
    requires |s| <= width && SPACE !in s
    ensures Trimmed(Field(s, width)) == s
  {
    var f := Field(s, width);
    assert f[..|s|] == s;
    IndexUnique(f, SPACE, |s|);
  }

  // Looking a name up is looking for the entry that spells it in upper case.
  lemma EncodedSpells(n: ShortName)
    requires n.Valid()
    ensures Spelled(Encoded(n.Rendered())) == ShortName(AllUpper(n.base), AllUpper(n.ext))
  {
    var name := n.Rendered();
    forall c | c in n.base
      ensures c != DOT && c != SPACE
    {
      assert c in n.base + n.ext;
    }
    forall c | c in n.ext
      ensures c != DOT && c != SPACE
    {
      assert c in n.base + n.ext;
    }
    assert name[..|n.base|] == n.base;
    IndexUnique(name, DOT, |n.base|);
    if |n.ext| > 0 {
      assert name[|n.base| + 1..] == n.ext;
    }
    UpperIsNotSpace(n.base);
    UpperIsNotSpace(n.ext);
    TrimmedField(AllUpper(n.base), 8);
    TrimmedField(AllUpper(n.ext), 3);
    var raw := Encoded(name);
    assert raw[..8] == Field(AllUpper(n.base), 8) && raw[8..] == Field(AllUpper(n.ext), 3);
  }

  // Two canonical names reach the same entries exactly when they are equal up
  // to case.
  lemma EncodedInjective(m: ShortName, n: ShortName)
    requires m.Valid() && n.Valid()
    ensures Encoded(m.Rendered()) == Encoded(n.Rendered())
            <==> AllUpper(m.base) == AllUpper(n.base) && AllUpper(m.ext) == AllUpper(n.ext)
  {
    EncodedSpells(m);
    EncodedSpells(n);
    EncodedBySpelling(m);
    EncodedBySpelling(n);
  }

  lemma EncodedBySpelling(n: ShortName)
    requires n.Valid()
    ensures Encoded(n.Rendered()) == Field(AllUpper(n.base), 8) + Field(AllUpper(n.ext), 3)
  {
    var name := n.Rendered();
    forall c | c in n.base
      ensures c != DOT
    {
      assert c in n.base + n.ext;
    }
    assert name[..|n.base|] == n.base;
    IndexUnique(name, DOT, |n.base|);
    if |n.ext| > 0 {
      assert name[|n.base| + 1..] == n.ext;
    }
  }
}
