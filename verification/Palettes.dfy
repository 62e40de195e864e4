/** Palettes for PNG images (src/libguac/palette.c, encode-png.c): a hash table
    with open addressing that stands for the list of distinct colours. */
module Palettes {
  import opened Basics

  const BUCKETS: nat := 0x1000
  const MAX_COLORS: nat := 256

  type Pixel = p: int | 0 <= p < 0x1_0000_0000
  type Color = c: int | 0 <= c < 0x100_0000
  type Bucket = h: int | 0 <= h < BUCKETS

  /** One entry of the table; index zero marks it as free. */
  datatype Entry = Entry(index: nat, color: Color)

  datatype Rgb = Rgb(red: nat, green: nat, blue: nat)

  /** The colour of a pixel, without the unused byte. */
  function ColorOf(p: Pixel): Color { p % 0x100_0000 }

  function RgbOf(c: Color): Rgb { Rgb(c / 0x10000 % 256, c / 256 % 256, c % 256) }
  function FromRgb(rgb: Rgb): int { rgb.red * 0x10000 + rgb.green * 256 + rgb.blue }

  /** The upper half of the colour, exclusive-or the lower. */
  function Hash(c: Color): Bucket {
    ((c / BUCKETS) as bv12 ^ (c % BUCKETS) as bv12) as int
  }

  /** The bucket tried after this one. */
  function NextBucket(h: Bucket): Bucket { (h + 1) % BUCKETS }

  /** How many steps of probing lead from one bucket to another. */
  function Steps(from: Bucket, to: Bucket): nat {
    if from <= to then to - from else to - from + BUCKETS
  }

  // ------------------------------------------------------- the list of colours

  /** The distinct colours in order of their first appearance. */
  function Distinct(s: seq<Color>): seq<Color> {
    if s == [] then []
    else
      var before, c := Distinct(s[..|s| - 1]), s[|s| - 1];
      if c in before then before else before + [c]
  }

  lemma {:induction false} DistinctIsSet(s: seq<Color>)
    ensures NoRepeats(Distinct(s)) && forall c :: c in Distinct(s) <==> c in s
  {
    if s != [] {
      var front, c := s[..|s| - 1], s[|s| - 1];
      DistinctIsSet(front);
      assert s == front + [c];
    }
  }

  function FirstIndex(s: seq<Color>, c: Color): (i: nat)
    requires c in s
    ensures i < |s| && s[i] == c && c !in s[..i]
  {
    if s[0] == c then 0
    else
      var i := FirstIndex(s[1..], c) + 1;
      assert s[..i] == [s[0]] + s[1..][..i - 1];
      i
  }

  lemma PrefixHolds(s: seq<Color>, i: nat)
    requires i <= |s|
    ensures forall k :: 0 <= k < i ==> s[k] in s[..i]
  {
    assert forall k :: 0 <= k < i ==> s[..i][k] == s[k];
  }

  lemma FirstIndexUnique(s: seq<Color>, c: Color, i: nat)
    requires i < |s| && s[i] == c && c !in s[..i]
    ensures FirstIndex(s, c) == i
  {
    PrefixHolds(s, i);
    PrefixHolds(s, FirstIndex(s, c));
  }

  lemma FirstIndexInFront(s: seq<Color>, c: Color)
    requires s != [] && c in s[..|s| - 1]
    ensures FirstIndex(s, c) == FirstIndex(s[..|s| - 1], c)
  {
    var front := s[..|s| - 1];
    var f := FirstIndex(front, c);
    assert s[..f] == front[..f];
    FirstIndexUnique(s, c, f);
  }

  /** Colours are listed in the order they first appear in. */
  lemma {:induction false} DistinctByAppearance(s: seq<Color>, i: nat, j: nat)
    requires i < j < |Distinct(s)|
    ensures Distinct(s)[i] in s && Distinct(s)[j] in s
    ensures FirstIndex(s, Distinct(s)[i]) < FirstIndex(s, Distinct(s)[j])
  {
    DistinctIsSet(s);
    var n := |s| - 1;
    var front, c, before := s[..n], s[n], Distinct(s[..n]);
    DistinctIsSet(front);
    var a, b := Distinct(s)[i], Distinct(s)[j];
    if j < |before| {
      DistinctByAppearance(front, i, j);
      FirstIndexInFront(s, b);
    } else {
      FirstIndexUnique(s, b, n);
    }
    FirstIndexInFront(s, a);
  }

  // -------------------------------------------------------------------- probing

  lemma StepsAreUnique(start: Bucket, h: Bucket, k: Bucket)
    requires Steps(start, h) == Steps(start, k)
    ensures h == k
  {
  }

  lemma NextStep(start: Bucket, h: Bucket, free: Bucket)
    requires Steps(start, h) <= Steps(start, free) && h != free
    ensures Steps(start, NextBucket(h)) == Steps(start, h) + 1 <= Steps(start, free)
    ensures Steps(NextBucket(h), free) < Steps(h, free)
  {
  }

  /** A table with fewer colours than buckets has a free bucket. */
  lemma {:induction false} FreeBucket(taken: seq<int>, n: nat) returns (h: nat)
    requires |taken| < n
    ensures h < n && h !in taken
  {
    h := n - 1;
    if h in taken {
      var i :| 0 <= i < |taken| && taken[i] == h;
      h := FreeBucket(taken[..i] + taken[i + 1..], n - 1);
      assert taken == taken[..i] + [taken[i]] + taken[i + 1..];
    }
  }

  /** Every colour is in its bucket, and every other bucket is free. */
  ghost predicate Stored(entries: seq<Entry>, slots: seq<Bucket>, list: seq<Color>) {
    && |entries| == BUCKETS && |list| == |slots|
    && (forall i :: 0 <= i < |slots| ==> entries[slots[i]] == Entry(i + 1, list[i]))
    && (forall h :: 0 <= h < BUCKETS && entries[h].index != 0 ==>
          entries[h].index <= |slots| && slots[entries[h].index - 1] == h)
  }

  /** All buckets that probing passes between these two are taken. */
  ghost predicate Taken(entries: seq<Entry>, from: Bucket, to: Bucket)
    requires |entries| == BUCKETS
  {
    forall h: Bucket :: Steps(from, h) < Steps(from, to) ==> entries[h].index != 0
  }

  /** The buckets probed on the way to a colour are all taken. */
  ghost predicate Reachable(entries: seq<Entry>, slots: seq<Bucket>, list: seq<Color>)
    requires |entries| == BUCKETS && |list| == |slots|
  {
    forall i :: 0 <= i < |slots| ==> Taken(entries, Hash(list[i]), slots[i])
  }

  /** Storing a colour where probing for it ends keeps the table in order. */
  lemma StoreColor(entries: seq<Entry>, slots: seq<Bucket>, list: seq<Color>, h: Bucket, c: Color)
    requires Stored(entries, slots, list) && Reachable(entries, slots, list)
    requires entries[h].index == 0 && Taken(entries, Hash(c), h)
    ensures var entries', slots', list' := entries[h := Entry(|list| + 1, c)], slots + [h], list + [c];
            Stored(entries', slots', list') && Reachable(entries', slots', list')
  {
    hide Hash, Steps;
  }

  /** Probing that ends at a free bucket has missed no colour. */
  lemma Absent(entries: seq<Entry>, slots: seq<Bucket>, list: seq<Color>, h: Bucket, c: Color)
    requires Stored(entries, slots, list) && Reachable(entries, slots, list) && entries[h].index == 0
    requires forall k: Bucket :: Steps(Hash(c), k) < Steps(Hash(c), h) ==> entries[k].color != c
    ensures c !in list
  {
    hide Hash, Steps;
    if c in list {
      var i :| 0 <= i < |list| && list[i] == c;
      var s := slots[i];
      assert Taken(entries, Hash(c), s) && entries[s].color == c;
      if Steps(Hash(c), h) == Steps(Hash(c), s) {
        StepsAreUnique(Hash(c), h, s);
      }
    }
  }

  /** A bucket in use holds the colour it numbers. */
  lemma StoredColor(entries: seq<Entry>, slots: seq<Bucket>, list: seq<Color>, h: Bucket)
    requires Stored(entries, slots, list) && entries[h].index != 0
    ensures 1 <= entries[h].index <= |list| && list[entries[h].index - 1] == entries[h].color
  {
    assert slots[entries[h].index - 1] == h;
  }

  lemma OneMore(list: seq<Color>, c: Color)
    requires NoRepeats(list) && c !in list
    ensures NoRepeats(list + [c])
  {
  }

  // -------------------------------------------------------------- the hash table

  lemma StartSteps(h: Bucket)
    ensures Steps(h, h) == 0
  {
  }

  lemma RgbBack(c: Color)
    ensures FromRgb(RgbOf(c)) == c
  {
  }

  class Palette {
    const entries: array<Entry>
    const colors: array<Rgb>
    var size: nat
    /** The bucket each colour is stored in. */
    ghost var slots: seq<Bucket>
    /** The colours stored. */
    ghost var list: seq<Color>

    ghost predicate Valid()
      reads this, entries, colors
    {
      && entries.Length == BUCKETS && colors.Length == MAX_COLORS
      && size == |list| == |slots| <= MAX_COLORS && NoRepeats(list)
      && (forall i :: 0 <= i < size ==> colors[i] == RgbOf(list[i]))
      && Stored(entries[..], slots, list) && Reachable(entries[..], slots, list)
    }

    lemma HasRoom()
      requires Valid()
      ensures |list| <= MAX_COLORS
    {
    }

    constructor ()
      ensures Valid() && list == [] && fresh(entries) && fresh(colors)
    {
      entries := new Entry[BUCKETS](_ => Entry(0, 0));
      colors := new Rgb[MAX_COLORS](_ => Rgb(0, 0, 0));
      size, slots, list := 0, [], [];
    }

    /** The probe loop of both functions: ends at the colour's bucket, or at a
        free bucket if the colour is not stored. */
    method Probe(color: Color) returns (hash: Bucket)
      requires Valid()
      ensures entries[hash].index != 0 ==> entries[hash].color == color
      ensures entries[hash].index == 0 ==> color !in list && Taken(entries[..], Hash(color), hash)
    {
      hide Hash, Steps, Reachable, NextBucket, NoRepeats;
      ghost var free: Bucket := FreeBucket(slots, BUCKETS);
      assert entries[..][free].index == 0;
      ghost var start := Hash(color);
      hash := Hash(color);
      StartSteps(start);
      while entries[hash].index != 0 && entries[hash].color != color
        invariant forall h: Bucket :: Steps(start, h) < Steps(start, hash) ==>
          entries[h].index != 0 && entries[h].color != color
        invariant Steps(start, hash) <= Steps(start, free)
        decreases Steps(hash, free)
      {
        NextStep(start, hash, free);
        ghost var last := hash;
        hash := NextBucket(hash);
        forall h: Bucket | Steps(start, h) < Steps(start, hash) ensures entries[h].index != 0 && entries[h].color != color {
          if Steps(start, h) == Steps(start, last) {
            StepsAreUnique(start, h, last);
          }
        }
      }
      if entries[hash].index == 0 {
        Absent(entries[..], slots, list, hash, color);
      }
    }

    /** One pixel of guac_palette_alloc. */
    method Add(color: Color) returns (ok: bool)
      requires Valid()
      modifies this, entries, colors
      ensures ok == (color in old(list) || |old(list)| < MAX_COLORS)
      ensures Valid() && list == if color in old(list) || !ok then old(list) else old(list) + [color]
    {
      hide Hash, Steps, Taken, Reachable, Stored, NoRepeats;
      var hash := Probe(color);
      if entries[hash].index == 0 {
        if size == MAX_COLORS {
          return false;
        }
        StoreColor(entries[..], slots, list, hash, color);
        OneMore(list, color);
        colors[size] := RgbOf(color);
        size := size + 1;
        entries[hash] := Entry(size, color);
        assert entries[..] == old(entries[..])[hash := Entry(size, color)];
        list := list + [color];
        slots := slots + [hash];
      } else {
        StoredColor(entries[..], slots, list, hash);
      }
      ok := true;
    }

    /** guac_palette_find. */
    method Find(color: Color) returns (index: int)
      requires Valid()
      ensures index == -1 <==> color !in list
      ensures index != -1 ==> 0 <= index < |list| && list[index] == color
      ensures index != -1 ==> colors[index] == RgbOf(color) && FromRgb(colors[index]) == color
    {
      hide Hash, Steps, Taken, Reachable, Stored, NoRepeats;
      var hash := Probe(color);
      if entries[hash].index == 0 {
        return -1;
      }
      StoredColor(entries[..], slots, list, hash);
      index := entries[hash].index - 1;
      RgbBack(color);
    }
  }

  // ------------------------------------------------------------------- the image

  function RowColors(row: seq<Pixel>): (r: seq<Color>)
    ensures |r| == |row|
  {
    seq(|row|, x requires 0 <= x < |row| => ColorOf(row[x]))
  }

  /** The colours of an image, row by row. */
  function ImageColors(rows: seq<seq<Pixel>>): seq<Color> {
    if rows == [] then [] else ImageColors(rows[..|rows| - 1]) + RowColors(rows[|rows| - 1])
  }

  lemma DistinctStep(s: seq<Color>, c: Color)
    ensures Distinct(s + [c]) == if c in Distinct(s) then Distinct(s) else Distinct(s) + [c]
  {
    assert (s + [c])[..|s|] == s;
  }

  lemma {:induction false} DistinctGrows(s: seq<Color>, t: seq<Color>)
    ensures Distinct(s) <= Distinct(s + t)
  {
    if t == [] {
      assert s + t == s;
    } else {
      var front := t[..|t| - 1];
      DistinctGrows(s, front);
      assert s + t == (s + front) + [t[|t| - 1]];
      DistinctStep(s + front, t[|t| - 1]);
    }
  }

  lemma RowSplits(row: seq<Pixel>, x: nat)
    requires x <= |row|
    ensures RowColors(row) == RowColors(row[..x]) + RowColors(row)[x..]
  {
  }

  lemma {:induction false} PartOfImage(rows: seq<seq<Pixel>>, y: nat, x: nat)
    requires y < |rows| && x <= |rows[y]|
    ensures |Distinct(ImageColors(rows[..y]) + RowColors(rows[y][..x]))| <= |Distinct(ImageColors(rows))|
    decreases |rows|
  {
    hide Distinct, RowColors;
    var n := |rows| - 1;
    var row := rows[n];
    if y == n {
      var part, rest := RowColors(row[..x]), RowColors(row)[x..];
      RowSplits(row, x);
      assert ImageColors(rows) == (ImageColors(rows[..n]) + part) + rest;
      DistinctGrows(ImageColors(rows[..n]) + part, rest);
    } else {
      PartOfImage(rows[..n], y, x);
      assert rows[..n][..y] == rows[..y];
      DistinctGrows(ImageColors(rows[..n]), RowColors(row));
    }
  }

  lemma RowGrows(row: seq<Pixel>, x: nat)
    requires x < |row|
    ensures RowColors(row[..x + 1]) == RowColors(row[..x]) + [ColorOf(row[x])]
  {
  }

  lemma NothingDistinct()
    ensures Distinct(ImageColors([])) == []
  {
  }

  /** guac_palette_alloc: fails exactly when the image has too many colours, and
      otherwise holds them in order of first appearance. */
  method BuildPalette(rows: seq<seq<Pixel>>) returns (palette: Palette?)
    ensures palette == null <==> |Distinct(ImageColors(rows))| > MAX_COLORS
    ensures palette != null ==> fresh(palette) && palette.Valid() && palette.list == Distinct(ImageColors(rows))
  {
    hide Distinct, RowColors, Palette.Valid;
    var p := new Palette();
    NothingDistinct();
    for y := 0 to |rows|
      invariant p.Valid() && fresh(p) && fresh(p.entries) && fresh(p.colors)
      invariant p.list == Distinct(ImageColors(rows[..y]))
    {
      ghost var above := ImageColors(rows[..y]);
      var row := rows[y];
      assert above + RowColors(row[..0]) == above;
      for x := 0 to |row|
        invariant p.Valid() && fresh(p) && fresh(p.entries) && fresh(p.colors)
        invariant p.list == Distinct(above + RowColors(row[..x]))
      {
        RowGrows(row, x);
        ghost var seen := above + RowColors(row[..x]);
        assert above + RowColors(row[..x + 1]) == seen + [ColorOf(row[x])];
        DistinctStep(seen, ColorOf(row[x]));
        PartOfImage(rows, y, x + 1);
        var ok := p.Add(ColorOf(row[x]));
        if !ok {
          return null;
        }
      }
      assert row[..|row|] == row && rows[..y + 1][..y] == rows[..y];
    }
    assert rows[..|rows|] == rows;
    p.HasRoom();
    palette := p;
  }

  /** The number of bits for a palette of the given size. */
  method BitsPerPixel(size: nat) returns (bpp: nat)
    requires size <= MAX_COLORS
    ensures bpp in {1, 2, 4, 8} && size <= Pow2(bpp)
    ensures forall b :: b in {1, 2, 4, 8} && size <= Pow2(b) ==> bpp <= b
  {
    assert Pow2(1) == 2 && Pow2(2) == 4 && Pow2(4) == 16 && Pow2(8) == 256 by { assert Pow2(3) == 8 && Pow2(6) == 64; }
    bpp := if size <= 2 then 1 else if size <= 4 then 2 else if size <= 16 then 4 else 8;
  }

  /** Red, green and blue of a pixel. */
  function PixelRgb(p: Pixel): Rgb { Rgb(p / 0x1_0000 % 0x100, p / 0x100 % 0x100, p % 0x100) }

  lemma RgbUnfolds(p: Pixel)
    ensures var c := p % 0x100_0000;
            && RgbOf(ColorOf(p)) == Rgb(c / 0x1_0000 % 0x100, c / 0x100 % 0x100, c % 0x100)
            && PixelRgb(p) == Rgb(p / 0x1_0000 % 0x100, p / 0x100 % 0x100, p % 0x100)
            && p == 0x100_0000 * (p / 0x100_0000) + c
  {
  }

  lemma DropsOneByte(k: nat, low: nat)
    requires low < 0x100
    ensures (0x100 * k + low) / 0x100 == k
  {
  }

  lemma DropsTwoBytes(k: nat, low: nat)
    requires low < 0x1_0000
    ensures (0x1_0000 * k + low) / 0x1_0000 == k
  {
  }

  lemma DropsHigh(q: nat, a: nat)
    ensures (0x100 * q + a) % 0x100 == a % 0x100
  {
  }

  lemma RedOfPixel(q: nat, c: Color)
    ensures (0x100_0000 * q + c) / 0x1_0000 % 0x100 == c / 0x1_0000 % 0x100
  {
    var a, low := c / 0x1_0000, c % 0x1_0000;
    DropsTwoBytes(0x100 * q + a, low);
    DropsHigh(q, a);
  }

  lemma GreenOfPixel(q: nat, c: Color)
    ensures (0x100_0000 * q + c) / 0x100 % 0x100 == c / 0x100 % 0x100
  {
    var a, low := c / 0x100, c % 0x100;
    DropsOneByte(0x1_0000 * q + a, low);
    DropsHigh(0x100 * q, a);
  }

  lemma BlueOfPixel(q: nat, c: Color)
    ensures (0x100_0000 * q + c) % 0x100 == c % 0x100
  {
  }

  lemma RgbOfPixel(p: Pixel)
    ensures RgbOf(ColorOf(p)) == PixelRgb(p)
  {
    hide *;
    RgbUnfolds(p);
    var q, c := p / 0x100_0000, p % 0x100_0000;
    RedOfPixel(q, c);
    GreenOfPixel(q, c);
    BlueOfPixel(q, c);
  }

  ghost predicate ShowsRow(row: seq<Pixel>, indices: seq<int>, colors: seq<Rgb>, bpp: nat) {
    && |indices| == |row|
    && forall x :: 0 <= x < |row| ==>
         0 <= indices[x] < |colors| && indices[x] < Pow2(bpp) && colors[indices[x]] == PixelRgb(row[x])
  }

  /** The indexed rows show the image: every index fits the bits per pixel and
      leads back to the red, green and blue of the pixel. */
  ghost predicate Shows(rows: seq<seq<Pixel>>, indices: seq<seq<int>>, colors: seq<Rgb>, bpp: nat) {
    && |indices| == |rows|
    && forall y :: 0 <= y < |rows| ==> ShowsRow(rows[y], indices[y], colors, bpp)
  }

  lemma {:induction false} InImage(rows: seq<seq<Pixel>>, y: nat, x: nat)
    requires y < |rows| && x < |rows[y]|
    ensures ColorOf(rows[y][x]) in ImageColors(rows)
  {
    var n := |rows| - 1;
    if y == n {
      assert RowColors(rows[n])[x] == ColorOf(rows[y][x]);
    } else {
      InImage(rows[..n], y, x);
    }
  }

  lemma PixelInImage(rows: seq<seq<Pixel>>, y: nat, x: nat)
    requires y < |rows| && x < |rows[y]|
    ensures ColorOf(rows[y][x]) in Distinct(ImageColors(rows))
  {
    DistinctIsSet(ImageColors(rows));
    InImage(rows, y, x);
  }

  /** The row loops of guac_png_write. */
  method IndexRows(palette: Palette, rows: seq<seq<Pixel>>, bpp: nat) returns (indices: seq<seq<int>>)
    requires palette.Valid() && palette.size <= Pow2(bpp) && palette.list == Distinct(ImageColors(rows))
    ensures Shows(rows, indices, palette.colors[..palette.size], bpp)
  {
    hide Distinct, RowColors, Stored, Reachable, NoRepeats, Pow2, FromRgb, RgbOf, PixelRgb;
    indices := [];
    for y := 0 to |rows|
      invariant |indices| == y
      invariant forall k :: 0 <= k < y ==> ShowsRow(rows[k], indices[k], palette.colors[..palette.size], bpp)
    {
      var line: seq<int> := [];
      for x := 0 to |rows[y]|
        invariant |line| == x && ShowsRow(rows[y][..x], line, palette.colors[..palette.size], bpp)
      {
        PixelInImage(rows, y, x);
        RgbOfPixel(rows[y][x]);
        var index := palette.Find(ColorOf(rows[y][x]));
        line := line + [index];
      }
      assert rows[y][..|rows[y]|] == rows[y];
      indices := indices + [line];
    }
  }

  /** What guac_png_write hands to libpng: nothing if the image has more than 256
      colours, otherwise a palette and indices that show exactly the image. */
  method IndexImage(rows: seq<seq<Pixel>>) returns (indexed: bool, colors: seq<Rgb>, indices: seq<seq<int>>, bpp: nat)
    ensures indexed <==> |Distinct(ImageColors(rows))| <= MAX_COLORS
    ensures indexed ==> |colors| == |Distinct(ImageColors(rows))| && Shows(rows, indices, colors, bpp) && bpp in {1, 2, 4, 8}
  {
    hide Distinct, Stored, Reachable, NoRepeats, Shows;
    var palette := BuildPalette(rows);
    if palette == null {
      return false, [], [], 0;
    }
    bpp := BitsPerPixel(palette.size);
    indices := IndexRows(palette, rows, bpp);
    indexed, colors := true, palette.colors[..palette.size];
  }
}
