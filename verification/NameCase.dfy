// Upper and lower case in the names of directory entries, letter by letter.
module NameCase {
  import opened Words
  import opened FatNames

  // Two spellings that differ in the case of letters only.
  predicate SameUpToCase(a: seq<byte>, b: seq<byte>) {
    |a| == |b| && forall i :: 0 <= i < |a| ==> SameLetter(a[i], b[i])
  }

  predicate SameLetter(x: byte, y: byte) {
    || x == y
    || (0x61 <= x <= 0x7A && y == x - 0x20)
    || (0x41 <= x <= 0x5A && y == x + 0x20)
  }

  // They are looked for under the same eleven bytes.
  lemma CaseDoesNotMatter(a: seq<byte>, b: seq<byte>, behind: seq<byte>)
    requires SameUpToCase(a, b) && |a| + 1 + |behind| == MAX_PATH
    ensures Encoded(a) == Encoded(b) && EncodedIn(a, behind) == EncodedIn(b, behind)
  {
    SameDots(a, b);
    var dot := IndexOf(a, DOT);
    SameUpper(a[..dot], b[..dot]);
    SameUpper(a, b);
    if dot < |a| {
      SameUpper(a[dot + 1..], b[dot + 1..]);
    }
    hide AllUpper, Field, IndexOf, SameLetter;
  }

  lemma SameUpper(a: seq<byte>, b: seq<byte>)
    requires SameUpToCase(a, b)
    ensures AllUpper(a) == AllUpper(b)
  {
  }

  lemma SameDots(a: seq<byte>, b: seq<byte>)
    requires SameUpToCase(a, b)
    ensures IndexOf(a, DOT) == IndexOf(b, DOT) && (DOT in a <==> DOT in b)
  {
    var i := IndexOf(a, DOT);
    assert DOT !in b[..i] by {
      forall j | 0 <= j < i ensures b[j] != DOT {
        assert a[..i][j] == a[j];
        assert a[j] in a[..i];
        assert SameLetter(a[j], b[j]);
      }
    }
    if i < |a| {
      assert SameLetter(a[i], b[i]);
    } else {
      assert a[..|a|] == a && b[..|b|] == b;
    }
    IndexUnique(b, DOT, i);
  }

  // What is looked for has no letter in lower case.
  lemma NeverLowerCase(name: seq<byte>, behind: seq<byte>)
    requires |name| + 1 + |behind| == MAX_PATH
    ensures forall i :: 0 <= i < 11 ==> !(0x61 <= EncodedIn(name, behind)[i] <= 0x7A)
    ensures forall i :: 0 <= i < 11 ==> !(0x61 <= Encoded(name)[i] <= 0x7A)
  {
    var dot := IndexOf(name, DOT);
    FieldNotLower(name[..dot], 8);
    FieldNotLower(name, 8);
    FieldNotLower(if dot < |name| then name[dot + 1..] else [], 3);
    FieldNotLower(StaleExtension(name, behind), 3);
    hide AllUpper, Field, IndexOf, StaleExtension;
  }

  lemma FieldNotLower(s: seq<byte>, width: nat)
    ensures forall i :: 0 <= i < width ==> !(0x61 <= Field(AllUpper(s), width)[i] <= 0x7A)
  {
  }

  // ---- Names as directories hold them ------------------------------------------------

  // The same text, with letters in upper case and everything else as it is.
  predicate InUpperCase(s: seq<byte>, upper: seq<byte>) {
    && SameUpToCase(s, upper)
    && forall i :: 0 <= i < |upper| ==> !(0x61 <= upper[i] <= 0x7A)
  }

  // Cut, or filled with spaces, to a width.
  function Padded(s: seq<byte>, width: nat): (f: seq<byte>)
    ensures |f| == width
  {
    if |s| >= width then s[..width] else s + seq(width - |s|, _ => 0x20)
  }

  // Letters come out in upper case and all other bytes as they are, up to the
  // first dot and behind it.
  lemma EncodedInUpperCase(name: seq<byte>, upper: seq<byte>)
    requires InUpperCase(name, upper)
    ensures var dot := IndexOf(upper, 0x2E);
      Encoded(name) == Padded(upper[..dot], 8) + Padded(if dot < |upper| then upper[dot + 1..] else [], 3)
  {
    SameDots(name, upper);
    var dot := IndexOf(name, DOT);
    FieldOfUpper(name[..dot], upper[..dot], 8);
    if dot < |name| {
      FieldOfUpper(name[dot + 1..], upper[dot + 1..], 3);
    } else {
      FieldOfUpper([], [], 3);
    }
    hide AllUpper, Field, IndexOf, SameLetter, Padded;
  }

  // A component of a path, and the eight and three characters of its entry.
  datatype Part = Part(base: seq<byte>, ext: seq<byte>, upperBase: seq<byte>, upperExt: seq<byte>) {
    predicate Valid() {
      && 1 <= |base| <= 8 && |ext| <= 3
      && InUpperCase(base, upperBase) && InUpperCase(ext, upperExt)
      && (forall i :: 0 <= i < |base| ==> Ordinary(base[i]))
      && (forall i :: 0 <= i < |ext| ==> Ordinary(ext[i]))
    }

    function Text(): seq<byte> {
      if |ext| == 0 then base else base + [0x2E] + ext
    }

    function EntryName(): (raw: seq<byte>)
      requires Valid()
      ensures |raw| == 11
    {
      Padded(upperBase, 8) + Padded(upperExt, 3)
    }
  }

  // No terminator, space, dot or slash.
  predicate Ordinary(c: byte) {
    c != 0 && c != 0x20 && c != 0x2E && c != 0x2F
  }

  lemma FieldOfUpper(s: seq<byte>, upper: seq<byte>, width: nat)
    requires InUpperCase(s, upper)
    ensures Field(AllUpper(s), width) == Padded(upper, width)
  {
    assert forall i :: 0 <= i < |s| ==> SameLetter(s[i], upper[i]);
  }

  // A component is looked for under the name its entry has.
  lemma EncodedPart(p: Part)
    requires p.Valid()
    ensures Encoded(p.Text()) == p.EntryName()
  {
    PartIsShortName(p);
    FieldOfUpper(p.base, p.upperBase, 8);
    FieldOfUpper(p.ext, p.upperExt, 3);
    EncodedBySpelling(ShortName(p.base, p.ext));
    hide Encoded, AllUpper, Field, InUpperCase;
  }

  lemma PartIsShortName(p: Part)
    requires p.Valid()
    ensures ShortName(p.base, p.ext).Valid() && ShortName(p.base, p.ext).Rendered() == p.Text()
  {
    forall c | c in p.base + p.ext
      ensures Ordinary(c)
    {
      var i :| 0 <= i < |p.base + p.ext| && (p.base + p.ext)[i] == c;
      assert c == if i < |p.base| then p.base[i] else p.ext[i - |p.base|];
    }
  }

  // kernel.bin, the file the second stage opens.
  const KERNEL := Part([0x6B, 0x65, 0x72, 0x6E, 0x65, 0x6C], [0x62, 0x69, 0x6E],
                       [0x4B, 0x45, 0x52, 0x4E, 0x45, 0x4C], [0x42, 0x49, 0x4E])

  lemma KernelName()
    ensures KERNEL.Valid()
    ensures Encoded([0x6B, 0x65, 0x72, 0x6E, 0x65, 0x6C, 0x2E, 0x62, 0x69, 0x6E])
         == [0x4B, 0x45, 0x52, 0x4E, 0x45, 0x4C, 0x20, 0x20, 0x42, 0x49, 0x4E]
  {
    KernelIsPart();
    EncodedPart(KERNEL);
    hide Encoded, Part.Valid;
    assert KERNEL.Text() == [0x6B, 0x65, 0x72, 0x6E, 0x65, 0x6C, 0x2E, 0x62, 0x69, 0x6E];
    assert KERNEL.EntryName() == [0x4B, 0x45, 0x52, 0x4E, 0x45, 0x4C, 0x20, 0x20, 0x42, 0x49, 0x4E];
  }

  lemma KernelIsPart()
    ensures KERNEL.Valid()
  {
  }
}
