// The summary of a drawn framebuffer: how many pixels differ from the one in
// the corner, and how many colours those have.
module FramebufferReport {
  import opened Words
  import opened Pixels
  import opened GfxBridge
  import Arithmetic

  const SEEN_LIMIT := 16

  // The first n pixels of a row, and all pixels of the first n rows, in
  // reading order.
  function RowStart(m: Mode, b: seq<bv8>, y: nat, n: nat): (s: seq<bv32>)
    requires HoldsRows(m, |b|) && y < m.height && n <= m.width
    ensures |s| == n
  {
    seq(n, x requires 0 <= x < n => PixelAt(m, b, y, x))
  }

  function Rows(m: Mode, b: seq<bv8>, n: nat): (s: seq<bv32>)
    requires HoldsRows(m, |b|) && n <= m.height
  {
    if n == 0 then [] else Rows(m, b, n - 1) + RowStart(m, b, n - 1, m.width)
  }

  // A presented framebuffer is, pixel by pixel, the converted backbuffer: what
  // is reported of it is a report on the picture that was drawn.
  lemma {:induction false} PresentedRows(m: Mode, b: seq<bv8>, was: seq<bv8>, source: seq<bv32>, n: nat)
    requires Shown(m, b, was, source, m.height, 0) && n <= m.height
    ensures |Rows(m, b, n)| == n * m.width <= |source|
    ensures forall k :: 0 <= k < n * m.width ==> Rows(m, b, n)[k] == Converted(m, source[k])
  {
    ShownHolds(m, b, was, source);
    hide *;
    if n > 0 {
      var before, row, at := Rows(m, b, n - 1), RowStart(m, b, n - 1, m.width), (n - 1) * m.width;
      PresentedRows(m, b, was, source, n - 1);
      PresentedRow(m, b, was, source, n - 1, row, at);
      RowsSplit(m, b, n);
      OneRowMore(m, before, row, source);
    } else {
      NoRows(m, b);
    }
  }

  lemma RowsSplit(m: Mode, b: seq<bv8>, n: nat)
    requires HoldsRows(m, |b|) && 0 < n <= m.height
    ensures Rows(m, b, n) == Rows(m, b, n - 1) + RowStart(m, b, n - 1, m.width)
    ensures n * m.width == (n - 1) * m.width + m.width
  {
    Arithmetic.NextMultiple(n, m.width);
  }

  lemma NoRows(m: Mode, b: seq<bv8>)
    requires HoldsRows(m, |b|)
    ensures Rows(m, b, 0) == [] && 0 * m.width == 0
  {
  }

  // Converted pixels, and behind them those of one row.
  lemma OneRowMore(m: Mode, before: seq<bv32>, row: seq<bv32>, source: seq<bv32>)
    requires Placeable(m) && |before| + |row| <= |source|
    requires forall k :: 0 <= k < |before| ==> before[k] == Converted(m, source[k])
    requires forall x :: 0 <= x < |row| ==> row[x] == Converted(m, source[|before| + x])
    ensures forall k :: 0 <= k < |before + row| ==> (before + row)[k] == Converted(m, source[k])
  {
    hide *;
    forall k | 0 <= k < |before + row| ensures (before + row)[k] == Converted(m, source[k]) {
      if k >= |before| {
        var x := k - |before|;
        assert row[x] == Converted(m, source[|before| + x]);
      }
    }
  }

  lemma PresentedRow(m: Mode, b: seq<bv8>, was: seq<bv8>, source: seq<bv32>, y: nat, row: seq<bv32>, at: nat)
    requires Shown(m, b, was, source, m.height, 0) && y < m.height && at == y * m.width
    requires HoldsRows(m, |b|) && Placeable(m) && row == RowStart(m, b, y, m.width)
    ensures at + m.width <= |source|
    ensures forall x :: 0 <= x < m.width ==> row[x] == Converted(m, source[at + x])
  {
    ShownHolds(m, b, was, source);
    Arithmetic.NextMultiple(y + 1, m.width);
    Arithmetic.MulLe(y + 1, m.height, m.width);
    hide *;
    forall x | 0 <= x < m.width ensures row[x] == Converted(m, source[at + x]) {
      RowPixel(m, b, was, source, y, x);
    }
  }

  lemma ShownHolds(m: Mode, b: seq<bv8>, was: seq<bv8>, source: seq<bv32>)
    requires Shown(m, b, was, source, m.height, 0)
    ensures Placeable(m) && HoldsRows(m, |b|) && m.width * m.height <= |source|
  {
  }

  lemma RowPixel(m: Mode, b: seq<bv8>, was: seq<bv8>, source: seq<bv32>, y: nat, x: nat)
    requires Shown(m, b, was, source, m.height, 0) && y < m.height && x < m.width
    ensures HoldsRows(m, |b|) && Placeable(m) && 0 <= y * m.width + x < |source|
    ensures RowStart(m, b, y, m.width)[x] == Converted(m, source[y * m.width + x])
  {
    hide Converted, PixelAt;
    SourceInside(m, y, x);
    assert ShowsColour(m, b, source, y, x);
  }

  // Positions whose pixel differs from the background, and the colours there.
  function Differing(s: seq<bv32>, background: bv32): set<nat> {
    set k: nat | k < |s| && s[k] != background
  }

  function Colours(s: seq<bv32>, background: bv32): set<bv32> {
    set c | c in s && c != background
  }

  ghost predicate Counted(s: seq<bv32>, background: bv32, covered: nat, seen: seq<bv32>) {
    && covered == |Differing(s, background)|
    && |seen| <= SEEN_LIMIT && NoDuplicates(seen)
    && (forall c :: c in seen ==> c in Colours(s, background))
    && (|seen| < SEEN_LIMIT ==> forall c :: c in Colours(s, background) ==> c in seen)
  }

  predicate NoDuplicates(seen: seq<bv32>) {
    forall i, j :: 0 <= i < j < |seen| ==> seen[i] != seen[j]
  }

  function Members(seen: seq<bv32>): set<bv32> {
    set c | c in seen
  }

  lemma {:induction false} SizeOfMembers(seen: seq<bv32>)
    requires NoDuplicates(seen)
    ensures |Members(seen)| == |seen|
  {
    if |seen| > 0 {
      var front, last := seen[..|seen| - 1], seen[|seen| - 1];
      assert seen == front + [last];
      SizeOfMembers(front);
      assert Members(seen) == Members(front) + {last};
      assert last !in front;
    }
  }

  lemma SubsetSize(a: set<bv32>, b: set<bv32>)
    requires a <= b
    ensures |a| <= |b|
  {
    assert b == a + (b - a);
  }

  // The table of colours seen, of sixteen entries, is exact until it is full.
  lemma SeenMeans(s: seq<bv32>, background: bv32, covered: nat, seen: seq<bv32>)
    requires Counted(s, background, covered, seen)
    ensures |seen| == Least(16, |Colours(s, background)|)
  {
    SizeOfMembers(seen);
    SubsetSize(Members(seen), Colours(s, background));
    if |seen| < SEEN_LIMIT {
      assert Members(seen) == Colours(s, background);
    }
  }

  lemma Skip(s: seq<bv32>, background: bv32, covered: nat, seen: seq<bv32>)
    requires Counted(s, background, covered, seen)
    ensures Counted(s + [background], background, covered, seen)
  {
    assert Differing(s + [background], background) == Differing(s, background);
    assert Colours(s + [background], background) == Colours(s, background);
  }

  lemma Count(s: seq<bv32>, pixel: bv32, background: bv32, covered: nat, seen: seq<bv32>)
    requires Counted(s, background, covered, seen) && pixel != background
    ensures Counted(s + [pixel], background, covered + 1,
                    if pixel in seen || |seen| == SEEN_LIMIT then seen else seen + [pixel])
  {
    assert Differing(s + [pixel], background) == Differing(s, background) + {|s|};
    assert Colours(s + [pixel], background) == Colours(s, background) + {pixel};
  }

  lemma Nothing(background: bv32)
    ensures Counted([], background, 0, [])
  {
    assert Differing([], background) == {};
  }

  datatype Report = Report(background: bv32, covered: nat, distinct: nat)

  // A mode without pixels has no report. Of any other, what is reported is
  // the number of pixels unlike the first, and of their colours, up to 16.
  method ReportFramebuffer(m: Mode, framebuffer: array<bv8>) returns (report: Option<Report>)
    requires HoldsRows(m, framebuffer.Length)
    ensures report.None? <==> m.bpp == 0 || m.width == 0 || m.height == 0
    ensures report.Some? ==>
      var s, first := Rows(m, framebuffer[..], m.height), PixelAt(m, framebuffer[..], 0, 0);
      report.value == Report(first, |Differing(s, first)|, Least(16, |Colours(s, first)|))
  {
    hide PixelAt, Counted, HoldsRows, Differing, Colours;
    if m.bpp == 0 || m.width == 0 || m.height == 0 {
      return None;
    }
    ghost var b := framebuffer[..];
    var background := PixelAt(m, framebuffer[..], 0, 0);
    var covered: nat, distinct: nat, seen := 0, 0, new bv32[SEEN_LIMIT];
    Nothing(background);
    var y := 0;
    while y < m.height
      invariant y <= m.height && distinct <= SEEN_LIMIT
      invariant Counted(Rows(m, b, y), background, covered, seen[..distinct])
    {
      var x := 0;
      ghost var above := Rows(m, b, y);
      assert above + RowStart(m, b, y, 0) == above;
      while x < m.width
        invariant x <= m.width && distinct <= SEEN_LIMIT
        invariant Counted(above + RowStart(m, b, y, x), background, covered, seen[..distinct])
      {
        var pixel := PixelAt(m, framebuffer[..], y, x);
        ghost var before, table := above + RowStart(m, b, y, x), seen[..distinct];
        assert above + RowStart(m, b, y, x + 1) == before + [pixel];
        if pixel == background {
          Skip(before, background, covered, table);
        } else {
          Count(before, pixel, background, covered, table);
          covered := covered + 1;
          distinct := Remember(seen, distinct, pixel);
        }
        x := x + 1;
      }
      y := y + 1;
    }
    SeenMeans(Rows(m, b, m.height), background, covered, seen[..distinct]);
    CoveredMeans(Rows(m, b, m.height), background, covered, seen[..distinct]);
    return Some(Report(background, covered, distinct));
  }

  // A colour is entered in the table unless it is there, or the table is full.
  method Remember(seen: array<bv32>, distinct: nat, pixel: bv32) returns (distinct': nat)
    requires seen.Length == SEEN_LIMIT && distinct <= SEEN_LIMIT
    modifies seen
    ensures distinct' <= SEEN_LIMIT
    ensures var table := old(seen[..distinct]);
      seen[..distinct'] == if pixel in table || |table| == SEEN_LIMIT then table else table + [pixel]
  {
    distinct' := distinct;
    var i := 0;
    while i < distinct && seen[i] != pixel
      invariant i <= distinct && pixel !in seen[..i]
    {
      i := i + 1;
    }
    if i == distinct && distinct < SEEN_LIMIT {
      seen[distinct] := pixel;
      distinct' := distinct + 1;
      assert seen[..distinct'] == old(seen[..distinct]) + [pixel];
    }
  }

  lemma CoveredMeans(s: seq<bv32>, background: bv32, covered: nat, seen: seq<bv32>)
    requires Counted(s, background, covered, seen)
    ensures covered == |Differing(s, background)|
  {
  }
}
