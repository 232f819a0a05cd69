/**
 * The grid text format: a header `g<height>,<width>:` (base-36 integers) and then one line of
 * object characters per row. The decoder ignores all whitespace, so rows may be indented.
 */
module GridCodec {
  import opened Wrappers
  import opened GridTypes
  import opened IntCodec
  import opened ObjectCodec

  datatype GridDecodeError = BadHeader | BadSize | BadCell(ch: char)

  predicate IsWhitespace(ch: char) {
    ch == ' ' || ch == '\n' || ch == '\t' || ch == '\r'
  }

  /** The string without its whitespace, the other characters in order. */
  function Compact(s: seq<char>): (r: seq<char>)
    ensures forall k :: 0 <= k < |r| ==> !IsWhitespace(r[k])
    ensures |r| <= |s|
  {
    if s == [] then []
    else (if IsWhitespace(s[0]) then [] else [s[0]]) + Compact(s[1..])
  }

  /** The index of the first `ch` in `s`. */
  function IndexOf(s: seq<char>, ch: char): (r: Option<nat>)
    ensures r.Some? ==> r.value < |s| && s[r.value] == ch && ch !in s[..r.value]
    ensures r.None? ==> ch !in s
  {
    if s == [] then None
    else if s[0] == ch then Some(0)
    else
      var r := IndexOf(s[1..], ch);
      if r.None? then None
      else
        assert s[..r.value + 1] == [s[0]] + s[1..][..r.value];
        Some(r.value + 1)
  }

  function Width(grid: GameGrid): nat {
    if |grid| == 0 then 0 else |grid[0]|
  }

  function RowString(row: GameGridRow): (s: seq<char>)
    ensures |s| == |row|
    ensures forall k :: 0 <= k < |row| ==> s[k] == ObjectChar(row[k])
  {
    if row == [] then [] else [ObjectChar(row[0])] + RowString(row[1..])
  }

  /** The rows, each on a line of its own. */
  function Lines(grid: GameGrid): seq<char> {
    if grid == [] then [] else "\n" + RowString(grid[0]) + Lines(grid[1..])
  }

  function EncodeGrid(grid: GameGrid): seq<char> {
    "g" + EncodeInt(|grid|) + "," + EncodeInt(Width(grid)) + ":" + Lines(grid)
  }

  /** The header's height, width and the text after it, from a string without whitespace. */
  function ParseHeader(c: seq<char>): Option<(nat, nat, seq<char>)> {
    if |c| == 0 || c[0] != 'g' then None
    else
      var rest := c[1..];
      var comma := IndexOf(rest, ',');
      if comma.None? then None
      else
        var after := rest[comma.value + 1..];
        var colon := IndexOf(after, ':');
        if colon.None? then None
        else
          var height := DecodeInt(rest[..comma.value]);
          var width := DecodeInt(after[..colon.value]);
          if height.None? || width.None? then None
          else Some((height.value, width.value, after[colon.value + 1..]))
  }

  function DecodeRow(s: seq<char>): (r: Result<GameGridRow, GridDecodeError>)
    ensures r.Ok? ==> |r.value| == |s|
    ensures r.Ok? <==> forall k :: 0 <= k < |s| ==> CharObject(s[k]).Some?
    ensures r.Ok? ==> forall k :: 0 <= k < |s| ==> CharObject(s[k]) == Some(r.value[k])
  {
    if s == [] then Ok([])
    else
      var obj := CharObject(s[0]);
      if obj.None? then Err(BadCell(s[0]))
      else
        var rest := DecodeRow(s[1..]);
        if rest.Err? then rest else Ok([obj.value] + rest.value)
  }

  /** Exactly `height` rows of `width` cells, with nothing left over. */
  function DecodeRows(body: seq<char>, height: nat, width: nat): (r: Result<GameGrid, GridDecodeError>)
    ensures r.Ok? ==> |r.value| == height && forall k :: 0 <= k < |r.value| ==> |r.value[k]| == width
    ensures r.Ok? ==> forall k :: 0 <= k < |body| ==> CharObject(body[k]).Some?
    decreases height
  {
    if height == 0 then (if body == [] then Ok([]) else Err(BadSize))
    else if |body| < width then Err(BadSize)
    else
      var row := DecodeRow(body[..width]);
      if row.Err? then Err(row.error)
      else
        var rest := DecodeRows(body[width..], height - 1, width);
        if rest.Err? then rest else Ok([row.value] + rest.value)
  }

  /** Decodes a grid; the result has the header's dimensions. */
  function DecodeGrid(s: seq<char>): (r: Result<GameGrid, GridDecodeError>)
    ensures r.Ok? ==> ParseHeader(Compact(s)).Some?
    ensures r.Ok? ==> var (height, width, _) := ParseHeader(Compact(s)).value;
      |r.value| == height && forall k :: 0 <= k < |r.value| ==> |r.value[k]| == width
    ensures r.Ok? ==> IsRectangular(r.value)
    ensures r.Ok? ==> var (_, _, body) := ParseHeader(Compact(s)).value;
      forall k :: 0 <= k < |body| ==> CharObject(body[k]).Some?
  {
    var header := ParseHeader(Compact(s));
    if header.None? then Err(BadHeader)
    else
      var (height, width, body) := header.value;
      DecodeRows(body, height, width)
  }

  lemma {:induction false} CompactAppend(a: seq<char>, b: seq<char>)
    ensures Compact(a + b) == Compact(a) + Compact(b)
    decreases |a|
  {
    if a == [] {
      assert a + b == b;
    } else {
      assert (a + b)[0] == a[0];
      assert (a + b)[1..] == a[1..] + b;
      CompactAppend(a[1..], b);
    }
  }

  lemma {:induction false} CompactNoWhitespace(s: seq<char>)
    requires forall k :: 0 <= k < |s| ==> !IsWhitespace(s[k])
    ensures Compact(s) == s
    decreases |s|
  {
    if s != [] {
      CompactNoWhitespace(s[1..]);
    }
  }

  /** Every object character is a non-whitespace character other than `,` and `:`. */
  lemma ObjectCharIsPlain(obj: GridObject)
    ensures 'A' <= ObjectChar(obj) <= 'Z'
  {
  }

  /** The body of an encoding, once its line breaks are dropped, is the rows' characters in order. */
  function Cells(grid: GameGrid): seq<char> {
    if grid == [] then [] else RowString(grid[0]) + Cells(grid[1..])
  }

  lemma {:induction false} CompactLines(grid: GameGrid)
    ensures Compact(Lines(grid)) == Cells(grid)
    decreases |grid|
  {
    if grid != [] {
      var row := RowString(grid[0]);
      forall k | 0 <= k < |row| ensures !IsWhitespace(row[k]) {
        ObjectCharIsPlain(grid[0][k]);
      }
      assert Lines(grid) == "\n" + (row + Lines(grid[1..]));
      CompactAppend("\n", row + Lines(grid[1..]));
      CompactAppend(row, Lines(grid[1..]));
      CompactNoWhitespace(row);
      CompactLines(grid[1..]);
    }
  }

  lemma {:induction false} DecodeRowString(row: GameGridRow)
    ensures DecodeRow(RowString(row)) == Ok(row)
    decreases |row|
  {
    if row != [] {
      var s := RowString(row);
      assert s[0] == ObjectChar(row[0]);
      assert s[1..] == RowString(row[1..]);
      ObjectRoundTrip(row[0]);
      DecodeRowString(row[1..]);
      DecodeRowStep(s, row[0], row[1..]);
      assert [row[0]] + row[1..] == row;
    }
  }

  /** A known first character followed by a decodable rest decodes to that object and the rest. */
  lemma DecodeRowStep(s: seq<char>, obj: GridObject, rest: GameGridRow)
    requires s != [] && CharObject(s[0]) == Some(obj) && DecodeRow(s[1..]) == Ok(rest)
    ensures DecodeRow(s) == Ok([obj] + rest)
  {
  }

  lemma {:induction false} DecodeCells(grid: GameGrid, width: nat)
    requires forall k :: 0 <= k < |grid| ==> |grid[k]| == width
    ensures DecodeRows(Cells(grid), |grid|, width) == Ok(grid)
    decreases |grid|
  {
    if grid != [] {
      var body := Cells(grid);
      var row := RowString(grid[0]);
      assert body[..width] == row;
      assert body[width..] == Cells(grid[1..]);
      DecodeRowString(grid[0]);
      DecodeCells(grid[1..], width);
      assert [grid[0]] + grid[1..] == grid;
    }
  }

  /** A separator after a prefix that does not contain it is found right after the prefix. */
  lemma {:induction false} IndexAfterPrefix(prefix: seq<char>, sep: char, tail: seq<char>)
    requires sep !in prefix
    ensures IndexOf(prefix + [sep] + tail, sep) == Some(|prefix|)
    decreases |prefix|
  {
    var s := prefix + [sep] + tail;
    if prefix != [] {
      assert s[0] == prefix[0];
      assert s[1..] == prefix[1..] + [sep] + tail;
      IndexAfterPrefix(prefix[1..], sep, tail);
    }
  }

  /** A numeral and the text after it split at the first separator that is not a digit. */
  lemma NumeralThenSeparator(n: nat, sep: char, tail: seq<char>)
    requires sep == ',' || sep == ':'
    ensures IndexOf(EncodeInt(n) + [sep] + tail, sep) == Some(|EncodeInt(n)|)
  {
    NoSeparatorInNumeral(n, sep);
    IndexAfterPrefix(EncodeInt(n), sep, tail);
  }

  lemma NoSeparatorInNumeral(n: nat, sep: char)
    requires sep == ',' || sep == ':'
    ensures sep !in EncodeInt(n)
  {
    DigitsOnly(n, 36);
  }

  lemma {:induction false} DigitsOnly(n: nat, base: nat)
    requires 2 <= base <= 36
    ensures forall k :: 0 <= k < |Numeral(n, base)| ==>
              '0' <= Numeral(n, base)[k] <= '9' || 'a' <= Numeral(n, base)[k] <= 'z'
    decreases n
  {
    if n >= base {
      DigitsOnly(n / base, base);
    }
  }

  /** The header of an encoding parses back to the grid's dimensions. */
  lemma HeaderRoundTrip(height: nat, width: nat, body: seq<char>)
    ensures ParseHeader("g" + EncodeInt(height) + "," + EncodeInt(width) + ":" + body) == Some((height, width, body))
  {
    NoSeparatorInNumeral(height, ',');
    NoSeparatorInNumeral(width, ':');
    IntRoundTrip(height);
    IntRoundTrip(width);
    ParseHeaderOf(EncodeInt(height), EncodeInt(width), body);
  }

  /** A header whose fields hold no separator splits into those two fields and the body. */
  lemma ParseHeaderOf(a: seq<char>, b: seq<char>, body: seq<char>)
    requires ',' !in a && ':' !in b
    ensures ParseHeader("g" + a + "," + b + ":" + body) ==
      if DecodeInt(a).None? || DecodeInt(b).None? then None
      else Some((DecodeInt(a).value, DecodeInt(b).value, body))
  {
    var c := "g" + a + "," + b + ":" + body;
    var rest := c[1..];
    assert rest == a + [','] + (b + ":" + body);
    IndexAfterPrefix(a, ',', b + ":" + body);
    var after := rest[|a| + 1..];
    assert after == b + [':'] + body;
    IndexAfterPrefix(b, ':', body);
    assert rest[..|a|] == a;
    assert after[..|b|] == b;
    assert after[|b| + 1..] == body;
  }

  /** The header holds no whitespace. */
  lemma HeaderIsPlain(height: nat, width: nat)
    ensures var header := "g" + EncodeInt(height) + "," + EncodeInt(width) + ":";
      forall k :: 0 <= k < |header| ==> !IsWhitespace(header[k])
  {
    var header := "g" + EncodeInt(height) + "," + EncodeInt(width) + ":";
    DigitsOnly(height, 36);
    DigitsOnly(width, 36);
    forall k | 0 <= k < |header| ensures !IsWhitespace(header[k]) {
      if 0 < k < 1 + |EncodeInt(height)| {
        assert header[k] == EncodeInt(height)[k - 1];
      } else if 1 + |EncodeInt(height)| < k < |header| - 1 {
        assert header[k] == EncodeInt(width)[k - 2 - |EncodeInt(height)|];
      }
    }
  }

  /** Decoding inverts encoding on every rectangular grid. */
  lemma GridRoundTrip(grid: GameGrid)
    requires IsRectangular(grid)
    ensures DecodeGrid(EncodeGrid(grid)) == Ok(grid)
  {
    var header := "g" + EncodeInt(|grid|) + "," + EncodeInt(Width(grid)) + ":";
    assert EncodeGrid(grid) == header + Lines(grid);
    HeaderIsPlain(|grid|, Width(grid));
    CompactAppend(header, Lines(grid));
    CompactNoWhitespace(header);
    CompactLines(grid);
    HeaderRoundTrip(|grid|, Width(grid), Cells(grid));
    DecodeCells(grid, Width(grid));
  }

  /** Whitespace anywhere in the text does not change what it decodes to. */
  /** Distinct rectangular grids have distinct encodings. */
  lemma EncodeGridInjective(a: GameGrid, b: GameGrid)
    requires IsRectangular(a) && IsRectangular(b)
    ensures EncodeGrid(a) == EncodeGrid(b) ==> a == b
  {
    GridRoundTrip(a);
    GridRoundTrip(b);
  }

  lemma WhitespaceIgnored(s: seq<char>, t: seq<char>)
    requires Compact(s) == Compact(t)
    ensures DecodeGrid(s) == DecodeGrid(t)
  {
  }

  /** Leading whitespace before a row is dropped. */
  lemma CompactPadded(pad: seq<char>, row: seq<char>)
    requires forall k :: 0 <= k < |pad| ==> IsWhitespace(pad[k])
    requires forall k :: 0 <= k < |row| ==> !IsWhitespace(row[k])
    ensures Compact(pad + row) == row
  {
    CompactAppend(pad, row);
    CompactWhitespace(pad);
    CompactNoWhitespace(row);
  }

  lemma {:induction false} CompactWhitespace(s: seq<char>)
    requires forall k :: 0 <= k < |s| ==> IsWhitespace(s[k])
    ensures Compact(s) == []
    decreases |s|
  {
    if s != [] {
      CompactWhitespace(s[1..]);
    }
  }

  /** The mixed 4x3 grid of the encoding fixtures. */
  const MIXED_GRID: GameGrid := [
    [Empty, Virus(Color2), PillTop(Color1)],
    [Virus(Color1), Destroyed, PillBottom(Color3)],
    [PillSegment(Color2), Empty, PillSegment(Color1)],
    [PillLeft(Color3), PillRight(Color2), Destroyed]
  ]

  /** The rows on lines of their own, each indented by `pad`. */
  function IndentedLines(grid: GameGrid, pad: seq<char>): seq<char> {
    if grid == [] then [] else "\n" + pad + RowString(grid[0]) + IndentedLines(grid[1..], pad)
  }

  lemma {:induction false} CompactIndentedLines(grid: GameGrid, pad: seq<char>)
    requires forall k :: 0 <= k < |pad| ==> IsWhitespace(pad[k])
    ensures Compact(IndentedLines(grid, pad)) == Cells(grid)
    decreases |grid|
  {
    if grid != [] {
      var row := RowString(grid[0]);
      forall k | 0 <= k < |row| ensures !IsWhitespace(row[k]) {
        ObjectCharIsPlain(grid[0][k]);
      }
      var pad' := "\n" + pad;
      assert IndentedLines(grid, pad) == (pad' + row) + IndentedLines(grid[1..], pad);
      CompactAppend(pad' + row, IndentedLines(grid[1..], pad));
      CompactPadded(pad', row);
      CompactIndentedLines(grid[1..], pad);
    }
  }

  /**
   * The decoder accepts a line break after the header and indented rows: the encoding with every
   * row indented by whitespace still decodes to the grid.
   */
  lemma IndentedRoundTrip(grid: GameGrid, pad: seq<char>)
    requires IsRectangular(grid)
    requires forall k :: 0 <= k < |pad| ==> IsWhitespace(pad[k])
    ensures DecodeGrid("g" + EncodeInt(|grid|) + "," + EncodeInt(Width(grid)) + ":" + IndentedLines(grid, pad)) == Ok(grid)
  {
    var header := "g" + EncodeInt(|grid|) + "," + EncodeInt(Width(grid)) + ":";
    HeaderIsPlain(|grid|, Width(grid));
    CompactAppend(header, IndentedLines(grid, pad));
    CompactNoWhitespace(header);
    CompactIndentedLines(grid, pad);
    HeaderRoundTrip(|grid|, Width(grid), Cells(grid));
    DecodeCells(grid, Width(grid));
  }

  lemma IndentedLinesStep(grid: GameGrid, k: nat, pad: seq<char>)
    requires k < |grid|
    ensures IndentedLines(grid[k..], pad) == "\n" + pad + RowString(grid[k]) + IndentedLines(grid[k + 1..], pad)
  {
    assert grid[k..][1..] == grid[k + 1..];
  }

  /**
   * The header `g4,3:` followed by the four rows of the 4x3 grid, each on its own line indented
   * by six spaces, decodes to that grid.
   */
  lemma IndentedFixture()
    ensures DecodeGrid("g4,3:" + IndentedLines(MIXED_GRID, "      ")) == Ok(MIXED_GRID)
  {
    var g := MIXED_GRID;
    assert EncodeInt(4) == "4" && EncodeInt(3) == "3";
    assert |g| == 4 && Width(g) == 3 && IsRectangular(g);
    assert "g4,3:" == "g" + EncodeInt(|g|) + "," + EncodeInt(Width(g)) + ":";
    IndentedRoundTrip(g, "      ");
  }

  /** A header `g<h>,<w>:` fixes the number of rows and their width. */
  lemma HeaderFixesShape(s: seq<char>, height: nat, width: nat, body: seq<char>)
    requires Compact(s) == "g" + EncodeInt(height) + "," + EncodeInt(width) + ":" + body
    ensures DecodeGrid(s).Ok? ==> |DecodeGrid(s).value| == height
    ensures DecodeGrid(s).Ok? ==> forall k :: 0 <= k < height ==> |DecodeGrid(s).value[k]| == width
  {
    HeaderRoundTrip(height, width, body);
  }

  /** A body holding a character that names no object is rejected, whatever the dimensions. */
  lemma UnknownCellRejected(s: seq<char>, height: nat, width: nat, body: seq<char>, k: int)
    requires Compact(s) == "g" + EncodeInt(height) + "," + EncodeInt(width) + ":" + body
    requires 0 <= k < |body| && CharObject(body[k]).None?
    ensures DecodeGrid(s).Err?
  {
    HeaderRoundTrip(height, width, body);
  }

  /** `g1,1:Z` is refused: `Z` is not a cell character. */
  lemma UnknownCellExample()
    ensures DecodeGrid("g1,1:Z").Err?
  {
    UnknownCellHeader();
    UnknownCellRejected("g1,1:Z", 1, 1, "Z", 0);
  }

  lemma UnknownCellHeader()
    ensures Compact("g1,1:Z") == "g" + EncodeInt(1) + "," + EncodeInt(1) + ":" + "Z"
  {
    var header := "g" + EncodeInt(1) + "," + EncodeInt(1) + ":";
    HeaderIsPlain(1, 1);
    CompactNoWhitespace(header);
    CompactAppend(header, "Z");
    OneNumeral();
    assert header + "Z" == "g1,1:Z";
  }

  /** `gh,8:` announces 17 rows of 8, and `g5,6:` 5 rows of 6. */
  lemma HeaderExamples(s: seq<char>, t: seq<char>, body: seq<char>)
    ensures Compact(s) == "gh,8:" + body && DecodeGrid(s).Ok? ==>
      |DecodeGrid(s).value| == 17 && forall k :: 0 <= k < 17 ==> |DecodeGrid(s).value[k]| == 8
    ensures Compact(t) == "g5,6:" + body && DecodeGrid(t).Ok? ==>
      |DecodeGrid(t).value| == 5 && forall k :: 0 <= k < 5 ==> |DecodeGrid(t).value[k]| == 6
  {
    ExampleNumerals();
    if Compact(s) == "gh,8:" + body {
      HeaderLiteral(s, 17, 8, "gh,8:", body);
    }
    if Compact(t) == "g5,6:" + body {
      HeaderLiteral(t, 5, 6, "g5,6:", body);
    }
  }

  lemma OneNumeral()
    ensures EncodeInt(1) == "1"
  {
  }

  lemma ExampleNumerals()
    ensures "g" + EncodeInt(17) + "," + EncodeInt(8) + ":" == "gh,8:"
    ensures "g" + EncodeInt(5) + "," + EncodeInt(6) + ":" == "g5,6:"
  {
    assert EncodeInt(17) == "h" && EncodeInt(8) == "8";
    assert EncodeInt(5) == "5" && EncodeInt(6) == "6";
  }

  /** A header written out literally fixes the shape as its encoded form does. */
  lemma HeaderLiteral(s: seq<char>, height: nat, width: nat, header: seq<char>, body: seq<char>)
    requires header == "g" + EncodeInt(height) + "," + EncodeInt(width) + ":"
    requires Compact(s) == header + body
    ensures DecodeGrid(s).Ok? ==> |DecodeGrid(s).value| == height
    ensures DecodeGrid(s).Ok? ==> forall k :: 0 <= k < height ==> |DecodeGrid(s).value[k]| == width
  {
    HeaderFixesShape(s, height, width, body);
  }

  /** The row `XXXDRXXX` holds a horizontal pill: PillLeft Color3 at column 3, PillRight Color2 at 4. */
  lemma PillRowFixture()
    ensures DecodeRow("XXXDRXXX") == Ok([Empty, Empty, Empty, PillLeft(Color3), PillRight(Color2), Empty, Empty, Empty])
  {
    var row := [Empty, Empty, Empty, PillLeft(Color3), PillRight(Color2), Empty, Empty, Empty];
    assert RowString(row) == "XXXDRXXX";
    DecodeRowString(row);
  }
}
