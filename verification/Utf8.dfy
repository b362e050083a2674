// The incremental UTF-8 decoder behind the second stage's putc_utf8, against
// the encoding of section 3 of RFC 3629.
module Utf8 {
  import opened Words

  type CodePoint = c: int | 0 <= c < 0x11_0000

  // ---- Reference: the encoding ---------------------------------------------------

  function Encode(c: CodePoint): (b: seq<byte>)
    ensures |b| >= 1
  {
    if c < 0x80 then [c]
    else if c < 0x800 then [0xC0 + c / 0x40, 0x80 + c % 0x40]
    else if c < 0x1_0000 then [0xE0 + c / 0x1000, 0x80 + c / 0x40 % 0x40, 0x80 + c % 0x40]
    else [0xF0 + c / 0x4_0000, 0x80 + c / 0x1000 % 0x40, 0x80 + c / 0x40 % 0x40, 0x80 + c % 0x40]
  }

  function EncodeAll(text: seq<CodePoint>): seq<byte> {
    if text == [] then [] else Encode(text[0]) + EncodeAll(text[1..])
  }

  // ---- The decoder's step -----------------------------------------------------------

  // Continuation bytes still awaited, and the character under construction.
  datatype Decoding = Decoding(state: u32, built: u32)

  const START := Decoding(0, 0)

  // Six bits more, in a word of 32 bits.
  function Appended(built: u32, b: byte): u32 {
    built % 0x400_0000 * 0x40 + b % 0x40
  }

  // A byte may print a character, of 16 bits.
  function Step(d: Decoding, b: byte): (Decoding, seq<u16>) {
    if b < 0x80 then (d.(state := 0), [b])
    else if d.state == 0 then
      if 0xC0 <= b < 0xE0 then (Decoding(1, b % 0x20), [])
      else if 0xE0 <= b < 0xF0 then (Decoding(2, b % 0x10), [])
      else if 0xF0 <= b < 0xF8 then (Decoding(3, b % 0x08), [])
      else (d, [])
    else
      var built: u32 := Appended(d.built, b);
      (Decoding(d.state - 1, built), if d.state == 1 then [built % 0x1_0000] else [])
  }

  function Feed(d: Decoding, b: seq<byte>): (r: (Decoding, seq<u16>))
    decreases |b|
  {
    if b == [] then (d, [])
    else
      var (d1, now) := Step(d, b[0]);
      var (d2, later) := Feed(d1, b[1..]);
      (d2, now + later)
  }

  lemma {:induction false} FeedSplit(d: Decoding, b: seq<byte>, more: seq<byte>)
    ensures Feed(d, b + more).0 == Feed(Feed(d, b).0, more).0
    ensures Feed(d, b + more).1 == Feed(d, b).1 + Feed(Feed(d, b).0, more).1
    decreases |b|
  {
    hide Step;
    if b == [] {
      assert b + more == more;
    } else {
      assert (b + more)[1..] == b[1..] + more;
      FeedSplit(Step(d, b[0]).0, b[1..], more);
    }
  }

  // What has been gathered leaves room for what is awaited.
  predicate Bounded(d: Decoding) {
    && d.state <= 3
    && d.built < (if d.state == 3 then 0x8
                  else if d.state == 2 then 0x200
                  else if d.state == 1 then 0x8000
                  else 0x20_0000)
  }

  // Whatever is fed to the decoder, the character under construction keeps to
  // 21 bits, so that the shift by six drops nothing.
  lemma {:induction false} StaysBounded(d: Decoding, b: seq<byte>)
    requires Bounded(d)
    ensures Bounded(Feed(d, b).0)
    decreases |b|
  {
    if b != [] {
      StaysBounded(Step(d, b[0]).0, b[1..]);
    }
  }

  // ---- Well-formed text -----------------------------------------------------------------

  lemma FeedOne(d: Decoding, b: byte)
    ensures Feed(d, [b]) == Step(d, b)
  {
    hide Step;
    assert [b][1..] == [] && Step(d, b).1 + [] == Step(d, b).1;
  }

  lemma FeedMore(d: Decoding, b: byte, more: seq<byte>)
    ensures Feed(d, [b] + more).0 == Feed(Step(d, b).0, more).0
    ensures Feed(d, [b] + more).1 == Step(d, b).1 + Feed(Step(d, b).0, more).1
  {
    hide Step;
    assert ([b] + more)[1..] == more;
  }

  // Continuation bytes, as many as are awaited, print one character: what was
  // gathered, and six bits from each.
  lemma Continues1(d: Decoding, x: nat)
    requires d.state == 1 && d.built < 0x8000 && x < 0x40
    ensures Feed(d, [0x80 + x]).0.state == 0 && Feed(d, [0x80 + x]).1 == [(d.built * 0x40 + x) % 0x1_0000]
  {
    FeedOne(d, 0x80 + x);
  }

  lemma Continues2(d: Decoding, x: nat, y: nat)
    requires d.state == 2 && d.built < 0x200 && x < 0x40 && y < 0x40
    ensures Feed(d, [0x80 + x, 0x80 + y]).0.state == 0
    ensures Feed(d, [0x80 + x, 0x80 + y]).1 == [(d.built * 0x1000 + x * 0x40 + y) % 0x1_0000]
  {
    var d1 := Decoding(1, d.built * 0x40 + x);
    assert Step(d, 0x80 + x) == (d1, []);
    FeedMore(d, 0x80 + x, [0x80 + y]);
    assert [0x80 + x] + [0x80 + y] == [0x80 + x, 0x80 + y];
    hide Step;
    Continues1(d1, y);
  }

  lemma Continues3(d: Decoding, x: nat, y: nat, z: nat)
    requires d.state == 3 && d.built < 0x8 && x < 0x40 && y < 0x40 && z < 0x40
    ensures Feed(d, [0x80 + x, 0x80 + y, 0x80 + z]).0.state == 0
    ensures Feed(d, [0x80 + x, 0x80 + y, 0x80 + z]).1
         == [(d.built * 0x4_0000 + x * 0x1000 + y * 0x40 + z) % 0x1_0000]
  {
    var d1 := Decoding(2, d.built * 0x40 + x);
    assert Step(d, 0x80 + x) == (d1, []);
    FeedMore(d, 0x80 + x, [0x80 + y, 0x80 + z]);
    assert [0x80 + x] + [0x80 + y, 0x80 + z] == [0x80 + x, 0x80 + y, 0x80 + z];
    hide Step;
    Continues2(d1, y, z);
  }

  // A code point is its groups of six bits.
  lemma Groups(c: CodePoint)
    ensures c == c / 0x40 * 0x40 + c % 0x40
    ensures c / 0x40 == c / 0x1000 * 0x40 + c / 0x40 % 0x40
    ensures c / 0x1000 == c / 0x4_0000 * 0x40 + c / 0x1000 % 0x40
  {
  }

  // The first byte says how many follow.
  lemma Leads(d: Decoding, lead: nat)
    requires d.state == 0
    ensures lead < 0x20 ==> Step(d, 0xC0 + lead) == (Decoding(1, lead), [])
    ensures lead < 0x10 ==> Step(d, 0xE0 + lead) == (Decoding(2, lead), [])
    ensures lead < 0x08 ==> Step(d, 0xF0 + lead) == (Decoding(3, lead), [])
  {
  }

  // One encoded character prints once, what its low sixteen bits say.
  lemma DecodesOne(d: Decoding, c: CodePoint)
    requires d.state == 0
    ensures Feed(d, Encode(c)).0.state == 0 && Feed(d, Encode(c)).1 == [c % 0x1_0000]
  {
    hide Feed;
    if c < 0x80 {
      FeedOne(d, c);
    } else if c < 0x800 {
      DecodesTwo(d, c);
    } else if c < 0x1_0000 {
      DecodesThree(d, c);
    } else {
      DecodesFour(d, c);
    }
  }

  lemma DecodesTwo(d: Decoding, c: CodePoint)
    requires d.state == 0 && 0x80 <= c < 0x800
    ensures Feed(d, Encode(c)).0.state == 0 && Feed(d, Encode(c)).1 == [c % 0x1_0000]
  {
    hide Feed, Step;
    var lead, z := c / 0x40, c % 0x40;
    Groups(c);
    Leads(d, lead);
    FeedMore(d, 0xC0 + lead, [0x80 + z]);
    Continues1(Decoding(1, lead), z);
    assert Encode(c) == [0xC0 + lead] + [0x80 + z];
  }

  lemma DecodesThree(d: Decoding, c: CodePoint)
    requires d.state == 0 && 0x800 <= c < 0x1_0000
    ensures Feed(d, Encode(c)).0.state == 0 && Feed(d, Encode(c)).1 == [c % 0x1_0000]
  {
    hide Feed, Step;
    var lead, y, z := c / 0x1000, c / 0x40 % 0x40, c % 0x40;
    Groups(c);
    Leads(d, lead);
    FeedMore(d, 0xE0 + lead, [0x80 + y, 0x80 + z]);
    Continues2(Decoding(2, lead), y, z);
    assert Encode(c) == [0xE0 + lead] + [0x80 + y, 0x80 + z];
    assert c == lead * 0x1000 + y * 0x40 + z;
  }

  lemma DecodesFour(d: Decoding, c: CodePoint)
    requires d.state == 0 && 0x1_0000 <= c
    ensures Feed(d, Encode(c)).0.state == 0 && Feed(d, Encode(c)).1 == [c % 0x1_0000]
  {
    hide Feed, Step;
    var lead, x, y, z := c / 0x4_0000, c / 0x1000 % 0x40, c / 0x40 % 0x40, c % 0x40;
    Groups(c);
    Leads(d, lead);
    FeedMore(d, 0xF0 + lead, [0x80 + x, 0x80 + y, 0x80 + z]);
    Continues3(Decoding(3, lead), x, y, z);
    assert Encode(c) == [0xF0 + lead] + [0x80 + x, 0x80 + y, 0x80 + z];
    assert c == lead * 0x4_0000 + x * 0x1000 + y * 0x40 + z;
  }

  function LowWords(text: seq<CodePoint>): (out: seq<u16>)
    ensures |out| == |text| && forall j :: 0 <= j < |text| ==> out[j] == text[j] % 0x1_0000
  {
    seq(|text|, j requires 0 <= j < |text| => text[j] % 0x1_0000)
  }

  lemma {:induction false} DecodesText(d: Decoding, text: seq<CodePoint>)
    requires d.state == 0
    ensures Feed(d, EncodeAll(text)).0.state == 0 && Feed(d, EncodeAll(text)).1 == LowWords(text)
    decreases |text|
  {
    hide Encode, Step;
    if text != [] {
      DecodesOne(d, text[0]);
      FeedSplit(d, Encode(text[0]), EncodeAll(text[1..]));
      DecodesText(Feed(d, Encode(text[0])).0, text[1..]);
    }
  }

  // The decoder prints the text itself exactly when every character of it is
  // on the basic multilingual plane.
  lemma RoundTrip(text: seq<CodePoint>)
    ensures Feed(START, EncodeAll(text)).0.state == 0
    ensures Feed(START, EncodeAll(text)).1 == text <==> forall j :: 0 <= j < |text| ==> text[j] < 0x1_0000
  {
    hide Step, Encode, Feed, EncodeAll;
    DecodesText(START, text);
    var out := LowWords(text);
    if j :| 0 <= j < |text| && text[j] >= 0x1_0000 {
      assert out[j] != text[j];
    }
  }

  // After any bytes at all, one ASCII byte is printed as itself and brings the
  // decoder back into step: the text that follows is decoded in full.
  lemma Resynchronises(d: Decoding, garbage: seq<byte>, ascii: byte, text: seq<CodePoint>)
    requires ascii < 0x80
    ensures Feed(d, garbage + ([ascii] + EncodeAll(text))).1 == Feed(d, garbage).1 + [ascii] + LowWords(text)
    ensures Feed(d, garbage + ([ascii] + EncodeAll(text))).0.state == 0
  {
    hide Encode, EncodeAll, Feed;
    var d1 := Feed(d, garbage).0;
    FeedSplit(d, garbage, [ascii] + EncodeAll(text));
    FeedSplit(d1, [ascii], EncodeAll(text));
    FeedOne(d1, ascii);
    DecodesText(Feed(d1, [ascii]).0, text);
  }

  // ---- The decoder itself ------------------------------------------------------------------

  class Decoder {
    var state: u32
    var built: u32

    function Now(): Decoding
      reads this
    {
      Decoding(state, built)
    }

    constructor ()
      ensures Now() == START
    {
      state, built := 0, 0;
    }

    method Putc(b: byte) returns (printed: seq<u16>)
      modifies this
      ensures (Now(), printed) == Step(old(Now()), b)
    {
      printed := [];
      if b < 0x80 {
        state := 0;
        printed := [b];
      } else if state == 0 {
        if 0xC0 <= b < 0xE0 {
          built := b % 0x20;
          state := 1;
        } else if 0xE0 <= b < 0xF0 {
          built := b % 0x10;
          state := 2;
        } else if 0xF0 <= b < 0xF8 {
          built := b % 0x08;
          state := 3;
        }
      } else {
        built := Appended(built, b);
        state := state - 1;
        if state == 0 {
          printed := [built % 0x1_0000];
        }
      }
    }

    // A string without its terminator.
    method Puts(str: seq<byte>) returns (printed: seq<u16>)
      modifies this
      ensures Now() == Feed(old(Now()), str).0 && printed == Feed(old(Now()), str).1
    {
      hide Step;
      printed := [];
      var k := 0;
      assert str[0..] == str;
      while k < |str|
        invariant k <= |str|
        invariant Feed(old(Now()), str).0 == Feed(Now(), str[k..]).0
        invariant Feed(old(Now()), str).1 == printed + Feed(Now(), str[k..]).1
      {
        assert str[k..] == [str[k]] + str[k + 1..];
        FeedMore(Now(), str[k], str[k + 1..]);
        var more := Putc(str[k]);
        printed := printed + more;
        k := k + 1;
      }
      assert str[k..] == [];
    }
  }
}
