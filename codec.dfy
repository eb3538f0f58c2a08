/**
 * Making grids: the GOLN text format (a header line `<width>x<height>`,
 * then one `<x>,<y>` line per live cell), reading it into a grid, writing
 * it back, and filling a grid from a source of random bits.
 *
 * Every way `parse_goln` panics (no header line, a line that does not
 * split or whose numbers do not parse, a cell outside the grid) is a `None`
 * result here, and so is a zero dimension.
 */
module Codec {
  import opened Wrappers
  import opened Text

  /** A decoded GOLN document: the grid's width and height and the live cells as `(x, y)`. */
  datatype Goln = Goln(width: nat, height: nat, live: seq<(nat, nat)>)

  /** `(x, y)` is a cell of a `width` by `height` grid. */
  predicate InBounds(c: (nat, nat), width: nat, height: nat) {
    c.0 < width && c.1 < height
  }

  /** A document that describes a grid: both dimensions are usable and every cell is on the grid. */
  predicate ValidGoln(d: Goln) {
    0 < d.width <= USIZE_MAX && 0 < d.height <= USIZE_MAX &&
    forall i :: 0 <= i < |d.live| ==> InBounds(d.live[i], d.width, d.height)
  }

  // ---------------------------------------------------------------------
  // Reading

  /**
   * A line holding two numbers around a separator: split it at the first
   * `sep` and read both halves, which must both be `usize` texts.
   */
  function ParsePair(line: string, sep: char): (r: Option<(nat, nat)>)
    ensures r.Some? ==> r.value.0 <= USIZE_MAX && r.value.1 <= USIZE_MAX
  {
    match SplitOnce(line, sep)
    case None => None
    case Some(pair) => MapSplitOnceToUsize(pair)
  }

  /**
   * A line made of `a`, the separator and `b` (with no separator in `a`)
   * reads as the numbers `a` and `b` denote, and fails when either is not
   * the text of a `usize`.
   */
  lemma ParsePairOfJoin(a: string, sep: char, b: string)
    requires sep !in a
    ensures ParsePair(a + [sep] + b, sep).Some? <==> IsUsizeText(a) && IsUsizeText(b)
    ensures ParsePair(a + [sep] + b, sep).Some? ==>
              ParsePair(a + [sep] + b, sep).value == (DigitsValue(Magnitude(a)), DigitsValue(Magnitude(b)))
  {
    SplitOnceJoin(a, sep, b);
    MapSplitOnceToUsizeMeaning((a, b));
  }

  /** The header line `<width>x<height>`, as `(width, height)`. */
  function ParseHeader(line: string): Option<(nat, nat)> {
    ParsePair(line, 'x')
  }

  /** A cell line `<x>,<y>`, as `(x, y)`. */
  function ParseCell(line: string): Option<(nat, nat)> {
    ParsePair(line, ',')
  }

  /**
   * Read every cell line, in order. (Recursive, so that a proof sees one
   * line's reading at a time; `ParseCellsAt` gives the reading of any line.)
   */
  function ParseCells(ls: seq<string>): (rs: seq<Option<(nat, nat)>>)
    ensures |rs| == |ls|
  {
    if ls == [] then [] else [ParseCell(ls[0])] + ParseCells(ls[1..])
  }

  /** The `i`-th reading is the reading of the `i`-th line. */
  lemma {:induction false} ParseCellsAt(ls: seq<string>, i: nat)
    requires i < |ls|
    ensures ParseCells(ls)[i] == ParseCell(ls[i])
  {
    if i > 0 {
      ParseCellsAt(ls[1..], i - 1);
    }
  }

  /**
   * Put a document together from the reading of its header line and of
   * each cell line: it fails on a missing header, a zero dimension, a cell
   * line that did not read, or a cell off the grid.
   */
  function Assemble(header: Option<(nat, nat)>, cells: seq<Option<(nat, nat)>>): (r: Option<Goln>)
    requires header.Some? ==> header.value.0 <= USIZE_MAX && header.value.1 <= USIZE_MAX
    ensures r.Some? ==> ValidGoln(r.value)
  {
    match header
    case None => None
    case Some((w, h)) =>
      if w == 0 || h == 0 then None
      else
        match AllOrNone(cells)
        case None => None
        case Some(live) =>
          if forall i :: 0 <= i < |live| ==> InBounds(live[i], w, h) then Some(Goln(w, h, live))
          else None
  }

  /**
   * A document is put together exactly when the header read with two
   * non-zero numbers and every cell line read as a cell on the grid; it
   * then has the header's size and the cells in line order.
   */
  lemma AssembleMeaning(header: Option<(nat, nat)>, cells: seq<Option<(nat, nat)>>)
    requires header.Some? ==> header.value.0 <= USIZE_MAX && header.value.1 <= USIZE_MAX
    ensures Assemble(header, cells).Some? <==>
              header.Some? && 0 < header.value.0 && 0 < header.value.1 &&
              forall i :: 0 <= i < |cells| ==>
                cells[i].Some? && InBounds(cells[i].value, header.value.0, header.value.1)
    ensures Assemble(header, cells).Some? ==>
              var d := Assemble(header, cells).value;
              (d.width, d.height) == header.value && |d.live| == |cells| &&
              forall i :: 0 <= i < |cells| ==> d.live[i] == cells[i].value
  {
  }

  /**
   * Read a GOLN text: the first line is the header, every further line a
   * live cell. Fails on a missing or bad header, a zero dimension, a bad
   * cell line or a cell off the grid.
   */
  function Decode(goln: string): (r: Option<Goln>)
    ensures r.Some? ==> ValidGoln(r.value)
  {
    var lines := Lines(goln);
    if lines == [] then None else Assemble(ParseHeader(lines[0]), ParseCells(lines[1..]))
  }

  /** The header and cell-line conditions under which a text reads. */
  predicate AcceptedLines(lines: seq<string>) {
    |lines| > 0 && ParseHeader(lines[0]).Some? &&
    var (w, h) := ParseHeader(lines[0]).value;
    0 < w && 0 < h &&
    forall i :: 1 <= i < |lines| ==> ParseCell(lines[i]).Some? && InBounds(ParseCell(lines[i]).value, w, h)
  }

  /**
   * A text reads exactly when it has a header line with two non-zero
   * numbers and every further line is a cell inside the grid; it then
   * lists those cells in line order.
   */
  lemma DecodeAccepts(goln: string)
    ensures Decode(goln).Some? <==> AcceptedLines(Lines(goln))
    ensures Decode(goln).Some? ==>
              var lines, d := Lines(goln), Decode(goln).value;
              (d.width, d.height) == ParseHeader(lines[0]).value && |d.live| == |lines| - 1 &&
              forall i :: 1 <= i < |lines| ==> d.live[i - 1] == ParseCell(lines[i]).value
  {
    var lines := Lines(goln);
    if lines != [] {
      var rs := ParseCells(lines[1..]);
      AssembleMeaning(ParseHeader(lines[0]), rs);
      forall j | 0 <= j < |rs| ensures rs[j] == ParseCell(lines[j + 1]) {
        ParseCellsAt(lines[1..], j);
      }
      forall i | 1 <= i < |lines| ensures ParseCell(lines[i]) == rs[i - 1] {
        assert rs[i - 1] == ParseCell(lines[i - 1 + 1]);
      }
    }
  }

  // ---------------------------------------------------------------------
  // Writing

  function HeaderLine(width: nat, height: nat): string {
    NatText(width) + ['x'] + NatText(height)
  }

  function CellLine(c: (nat, nat)): string {
    NatText(c.0) + [','] + NatText(c.1)
  }

  function CellLines(cells: seq<(nat, nat)>): (ls: seq<string>)
    ensures |ls| == |cells|
  {
    seq(|cells|, i requires 0 <= i < |cells| => CellLine(cells[i]))
  }

  /** Write a document in GOLN form: the header, then one line per live cell. */
  function Encode(d: Goln): string {
    JoinLines([HeaderLine(d.width, d.height)] + CellLines(d.live))
  }

  /** `a`, a separator, then `b`, where both are written numbers: a plain line. */
  lemma NumberPairIsPlain(a: nat, sep: char, b: nat)
    requires !IsDigit(sep) && sep != '\n'
    ensures PlainLine(NatText(a) + [sep] + NatText(b))
    ensures sep !in NatText(a)
  {
    NatTextHasNo(a, sep);
    NatTextHasNo(a, '\n');
    NatTextHasNo(b, '\n');
    var t := NatText(b);
    assert IsDigit(t[|t| - 1]);
  }

  /** A written number pair reads back as the pair. */
  lemma ReadNumberPair(a: nat, sep: char, b: nat)
    requires !IsDigit(sep) && a <= USIZE_MAX && b <= USIZE_MAX
    ensures ParsePair(NatText(a) + [sep] + NatText(b), sep) == Some((a, b))
  {
    NatTextHasNo(a, sep);
    SplitOnceJoin(NatText(a), sep, NatText(b));
    ParseNatText(a);
    ParseNatText(b);
    assert MapSplitOnceToUsize((NatText(a), NatText(b))) == Some((a, b));
  }

  /** Written cell lines read back as the cells. */
  lemma ReadCellLines(cells: seq<(nat, nat)>)
    requires forall i :: 0 <= i < |cells| ==> cells[i].0 <= USIZE_MAX && cells[i].1 <= USIZE_MAX
    ensures forall i :: 0 <= i < |cells| ==> ParseCells(CellLines(cells))[i] == Some(cells[i])
  {
    forall i | 0 <= i < |cells| ensures ParseCells(CellLines(cells))[i] == Some(cells[i]) {
      ParseCellsAt(CellLines(cells), i);
      ReadNumberPair(cells[i].0, ',', cells[i].1);
    }
  }

  /** Every number of the document is a `usize`, so each can be written and read back. */
  predicate NumbersFit(d: Goln) {
    d.width <= USIZE_MAX && d.height <= USIZE_MAX &&
    forall i :: 0 <= i < |d.live| ==> d.live[i].0 <= USIZE_MAX && d.live[i].1 <= USIZE_MAX
  }

  /**
   * Reading what was written gives back the document when it is valid,
   * and refuses it (a zero dimension, a cell off the grid) otherwise.
   */
  lemma DecodeEncode(d: Goln)
    requires NumbersFit(d)
    ensures Decode(Encode(d)) == if ValidGoln(d) then Some(d) else None
  {
    var ls := [HeaderLine(d.width, d.height)] + CellLines(d.live);
    forall i | 0 <= i < |ls| ensures PlainLine(ls[i]) {
      if i == 0 {
        NumberPairIsPlain(d.width, 'x', d.height);
      } else {
        NumberPairIsPlain(d.live[i - 1].0, ',', d.live[i - 1].1);
      }
    }
    LinesOfJoin(ls);
    ReadNumberPair(d.width, 'x', d.height);
    assert ls[1..] == CellLines(d.live);
    var rs := ParseCells(CellLines(d.live));
    ReadCellLines(d.live);
    AssembleMeaning(Some((d.width, d.height)), rs);
    if ValidGoln(d) {
      assert Assemble(Some((d.width, d.height)), rs).value.live == d.live;
    }
  }

  /** Reading is a fixed point of writing: a text that reads, written back, reads the same. */
  lemma DecodeEncodeDecode(goln: string)
    requires Decode(goln).Some?
    ensures Decode(Encode(Decode(goln).value)) == Decode(goln)
  {
    DecodeEncode(Decode(goln).value);
  }

  // ---------------------------------------------------------------------
  // Building grids

  /**
   * The reader's loop over the cell lines: set alive, one line at a time,
   * the cell each line names, stopping at the first line that does not read
   * as a cell of the grid. `ok` says whether every line did; `live` lists
   * the cells set, in line order.
   */
  method MarkCells(g: array2<bool>, ls: seq<string>) returns (ok: bool, ghost live: seq<(nat, nat)>)
    modifies g
    requires forall y, x {:trigger g[y, x]} :: 0 <= y < g.Length0 && 0 <= x < g.Length1 ==> !g[y, x]
    ensures ok <==> forall j :: 0 <= j < |ls| ==>
                      ParseCells(ls)[j].Some? && InBounds(ParseCells(ls)[j].value, g.Length1, g.Length0)
    ensures ok ==> |live| == |ls| && (forall j :: 0 <= j < |ls| ==> live[j] == ParseCells(ls)[j].value) &&
                   forall y, x {:trigger g[y, x]} :: 0 <= y < g.Length0 && 0 <= x < g.Length1 ==> (g[y, x] <==> (x, y) in live)
  {
    ghost var rs := ParseCells(ls);
    live := [];
    for i := 0 to |ls|
      invariant |live| == i
      invariant forall j :: 0 <= j < i ==> rs[j].Some? && live[j] == rs[j].value && InBounds(live[j], g.Length1, g.Length0)
      invariant forall y, x {:trigger g[y, x]} :: 0 <= y < g.Length0 && 0 <= x < g.Length1 ==> (g[y, x] <==> (x, y) in live)
    {
      ParseCellsAt(ls, i);
      var cell := ParseCell(ls[i]);
      if cell.None? {
        return false, live;
      }
      var (x, y) := cell.value;
      if x >= g.Length1 || y >= g.Length0 {
        return false, live;
      }
      g[y, x] := true;
      live := live + [(x, y)];
    }
    ok := true;
  }

  /**
   * Read a GOLN text into a new grid, line by line: make an all-dead grid
   * of the header's size, then set every listed cell alive. The result is
   * `None` exactly when `Decode` rejects the text, and otherwise a grid of
   * the decoded size whose live cells are exactly the listed ones.
   */
  method ParseGoln(goln: string) returns (grid: Option<array2<bool>>)
    ensures grid.None? <==> Decode(goln).None?
    ensures grid.Some? ==>
              var d := Decode(goln).value;
              fresh(grid.value) && grid.value.Length0 == d.height && grid.value.Length1 == d.width &&
              forall y, x :: 0 <= y < d.height && 0 <= x < d.width ==> (grid.value[y, x] <==> (x, y) in d.live)
  {
    var lines := Lines(goln);
    if lines == [] {
      return None;
    }
    var header := ParseHeader(lines[0]);
    if header.None? {
      return None;
    }
    var (w, h) := header.value;
    if w == 0 || h == 0 {
      return None;
    }
    var g := new bool[h, w]((_, _) => false);
    var ok;
    ghost var live;
    ok, live := MarkCells(g, lines[1..]);
    AssembleMeaning(header, ParseCells(lines[1..]));
    assert header.value == (g.Length1, g.Length0);
    if !ok {
      return None;
    }
    assert Assemble(header, ParseCells(lines[1..])).Some?;
    assert Decode(goln) == Assemble(header, ParseCells(lines[1..]));
    assert Decode(goln).value.live == live;
    return Some(g);
  }

  /**
   * A `width` by `height` grid whose every cell is drawn from `draw`, the
   * source of random bits: the cells are filled in row-major order, so the
   * `k`-th draw fills row `k / width`, column `k % width`. A zero dimension
   * is refused by choice.
   */
  method RandomGrid(width: nat, height: nat, draw: nat -> bool) returns (grid: Option<array2<bool>>)
    ensures grid.None? <==> width == 0 || height == 0
    ensures grid.Some? ==>
              var g := grid.value;
              fresh(g) && g.Length0 == height && g.Length1 == width &&
              forall y, x :: 0 <= y < height && 0 <= x < width ==> g[y, x] == draw(y * width + x)
  {
    if width == 0 || height == 0 {
      return None;
    }
    var g := new bool[height, width];
    for y := 0 to height
      invariant forall j, i :: 0 <= j < y && 0 <= i < width ==> g[j, i] == draw(j * width + i)
    {
      for x := 0 to width
        invariant forall j, i :: 0 <= j < y && 0 <= i < width ==> g[j, i] == draw(j * width + i)
        invariant forall i :: 0 <= i < x ==> g[y, i] == draw(y * width + i)
      {
        g[y, x] := draw(y * width + x);
      }
    }
    return Some(g);
  }
}
