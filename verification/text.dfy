/** The glyph layout of the bitmap-font text routine: which slice of the font
    sheet is copied where, for each character of an already formatted line. */
module Text {
  import opened Rules

  /** One glyph copy: the x of its cell in the font sheet and the x it is drawn at
      (both with width GLYPH_WIDTH; the y values are fixed). */
  datatype Glyph = Glyph(sourceX: int, destX: int)

  /** The font sheet holds the characters from ' ' to 'Z', one cell each. */
  predicate InFont(c: char)
  {
    ' ' <= c <= 'Z'
  }

  /** The length C's strlen gives a buffer: the characters before the first NUL. */
  function StrLen(s: string): (n: nat)
    ensures n <= |s|
    ensures '\0' !in s[..n]
    ensures n < |s| ==> s[n] == '\0'
  {
    if s == [] || s[0] == '\0' then 0 else 1 + StrLen(s[1..])
  }

  /** The glyphs drawn for `s` starting at destination x `x`, as the text loop
      lays them out: characters outside the font are skipped without moving x. */
  function Layout(x: int, s: string): seq<Glyph>
    decreases |s|
  {
    if s == [] then []
    else if InFont(s[0]) then [Glyph((s[0] as int - ' ' as int) * GLYPH_WIDTH, x)] + Layout(x + GLYPH_WIDTH, s[1..])
    else Layout(x, s[1..])
  }

  /** The characters of `s` that the font holds, in order. */
  function Printable(s: string): (p: string)
    ensures forall c :: c in p ==> InFont(c)
  {
    if s == [] then [] else (if InFont(s[0]) then [s[0]] else []) + Printable(s[1..])
  }

  /** Independent description of the layout: one glyph per printable character,
      the k-th at source x (c - ' ') * 18 inside the 59-cell sheet and destination
      x + 18 * k. */
  lemma {:induction false} LayoutShape(x: int, s: string)
    ensures |Layout(x, s)| == |Printable(s)|
    ensures forall k :: 0 <= k < |Layout(x, s)| ==>
      Layout(x, s)[k].sourceX == (Printable(s)[k] as int - ' ' as int) * GLYPH_WIDTH &&
      0 <= Layout(x, s)[k].sourceX <= 58 * GLYPH_WIDTH &&
      Layout(x, s)[k].destX == x + GLYPH_WIDTH * k
    decreases |s|
  {
    if s != [] {
      if InFont(s[0]) {
        LayoutShape(x + GLYPH_WIDTH, s[1..]);
        var rest := Layout(x + GLYPH_WIDTH, s[1..]);
        var p := Printable(s[1..]);
        assert Printable(s) == [s[0]] + p;
        forall k | 0 <= k < |Layout(x, s)|
          ensures Layout(x, s)[k].sourceX == (Printable(s)[k] as int - ' ' as int) * GLYPH_WIDTH
          ensures 0 <= Layout(x, s)[k].sourceX <= 58 * GLYPH_WIDTH
          ensures Layout(x, s)[k].destX == x + GLYPH_WIDTH * k
        {
          if k > 0 {
            assert Layout(x, s)[k] == rest[k - 1];
            assert Printable(s)[k] == p[k - 1] && InFont(p[k - 1]);
          }
        }
      } else {
        LayoutShape(x, s[1..]);
        assert Printable(s) == Printable(s[1..]);
      }
    }
  }

  /** The text loop: walks the first strlen characters, emitting one glyph copy
      per character of the font and advancing x by the glyph width after each. */
  method DrawTextLayout(x0: int, buffer: string) returns (blits: seq<Glyph>)
    ensures blits == Layout(x0, buffer[..StrLen(buffer)])
  {
    var len := StrLen(buffer);
    var line := buffer[..len];
    var x := x0;
    blits := [];
    var i := 0;
    while i < len
      invariant 0 <= i <= len
      invariant Layout(x0, line) == blits + Layout(x, line[i..])
    {
      var c := buffer[i];
      assert line[i..][0] == c && line[i..][1..] == line[i + 1..];
      if ' ' <= c <= 'Z' {
        blits := blits + [Glyph((c as int - ' ' as int) * GLYPH_WIDTH, x)];
        x := x + GLYPH_WIDTH;
      }
      i := i + 1;
    }
  }
}
