/** The post-processing inside `get_dominant_colors` (main.py:94-100). The
    quantizer's output is taken as given: the `(count, index)` pairs of
    `getcolors()` and the flat `[r0, g0, b0, r1, ...]` list of `getpalette()`.
    The pairs are ranked by `sorted(..., reverse=True)`, each index is looked up
    in the palette, and the list is cut to `num_colors` entries. */
module DominantColors {
  import opened Outcomes
  import ColorParsing

  type Rgb = ColorParsing.Rgb

  /** One pair of `getcolors()`: a pixel count and a palette index. */
  datatype ColorCount = ColorCount(count: nat, index: nat)

  /** `r, g, b = palette[idx*3:idx*3+3]` raises ValueError when the slice holds
      fewer than three values. */
  datatype RankError = UnpackError(index: nat)

  /** Python's `>=` on `(count, index)` tuples: by count, ties by index. */
  predicate AtLeast(x: ColorCount, y: ColorCount) {
    x.count > y.count || (x.count == y.count && x.index >= y.index)
  }

  predicate SortedDescending(s: seq<ColorCount>) {
    forall i, j :: 0 <= i < j < |s| ==> AtLeast(s[i], s[j])
  }

  function Min(a: nat, b: nat): nat {
    if a <= b then a else b
  }

  /** Places `x` in a descending list before the first entry it is at least. */
  function Insert(x: ColorCount, s: seq<ColorCount>): (r: seq<ColorCount>)
    requires SortedDescending(s)
    ensures SortedDescending(r)
    ensures multiset(r) == multiset(s) + multiset{x}
  {
    if s == [] || AtLeast(x, s[0]) then [x] + s
    else
      var rest := Insert(x, s[1..]);
      assert s == [s[0]] + s[1..];
      HeadBoundsInsert(s[0], x, s[1..], rest);
      [s[0]] + rest
  }

  /** An entry at least `x` and every entry of `t` is at least every entry of
      `t` with `x` added, in whatever order. */
  lemma HeadBoundsInsert(h: ColorCount, x: ColorCount, t: seq<ColorCount>, rest: seq<ColorCount>)
    requires AtLeast(h, x) && forall j :: 0 <= j < |t| ==> AtLeast(h, t[j])
    requires multiset(rest) == multiset(t) + multiset{x}
    ensures forall k :: 0 <= k < |rest| ==> AtLeast(h, rest[k])
  {
    forall k | 0 <= k < |rest| ensures AtLeast(h, rest[k]) {
      assert rest[k] in multiset(rest);
      if rest[k] != x {
        assert rest[k] in multiset(t);
        var j :| 0 <= j < |t| && t[j] == rest[k];
      }
    }
  }

  /** `sorted(color_counts, reverse=True)`: a descending rearrangement of the pairs. */
  function SortDescending(s: seq<ColorCount>): (r: seq<ColorCount>)
    ensures SortedDescending(r)
    ensures multiset(r) == multiset(s)
  {
    if s == [] then []
    else
      assert s == [s[0]] + s[1..];
      Insert(s[0], SortDescending(s[1..]))
  }

  /** Two descending lists with the same entries are the same list, so
      SortDescending is the only result `sorted(..., reverse=True)` can give. */
  lemma {:induction false} SortedUnique(a: seq<ColorCount>, b: seq<ColorCount>)
    requires SortedDescending(a) && SortedDescending(b)
    requires multiset(a) == multiset(b)
    ensures a == b
  {
    if a == [] {
      assert |b| == |multiset(b)|;
    } else {
      assert b != [] by {
        assert a[0] in multiset(b);
      }
      assert a[0] == b[0] by {
        HeadIsGreatest(a, b[0]);
        HeadIsGreatest(b, a[0]);
      }
      TailMultiset(a, b);
      SortedUnique(a[1..], b[1..]);
      assert a == [a[0]] + a[1..];
      assert b == [b[0]] + b[1..];
    }
  }

  lemma TailMultiset(a: seq<ColorCount>, b: seq<ColorCount>)
    requires a != [] && b != [] && a[0] == b[0] && multiset(a) == multiset(b)
    ensures multiset(a[1..]) == multiset(b[1..])
  {
    assert multiset(a) == multiset{a[0]} + multiset(a[1..]) by {
      assert a == [a[0]] + a[1..];
    }
    assert multiset(b) == multiset{b[0]} + multiset(b[1..]) by {
      assert b == [b[0]] + b[1..];
    }
    forall z ensures multiset(a[1..])[z] == multiset(b[1..])[z] {
      assert multiset(a)[z] == multiset(b)[z];
    }
  }

  /** The head of a descending list is at least every entry of the list. */
  lemma HeadIsGreatest(s: seq<ColorCount>, x: ColorCount)
    requires SortedDescending(s) && x in multiset(s)
    ensures AtLeast(s[0], x)
  {
    var i :| 0 <= i < |s| && s[i] == x;
  }

  /** The colour at a palette index, or None when the palette is too short. */
  function PaletteColor(palette: seq<int>, index: nat): (c: Option<Rgb>)
    ensures c.Some? <==> 3 * index + 3 <= |palette|
    ensures c.Some? ==> (c.value.r == palette[3 * index]
      && c.value.g == palette[3 * index + 1] && c.value.b == palette[3 * index + 2])
  {
    if 3 * index + 3 <= |palette| then
      Some(ColorParsing.Rgb(palette[3 * index], palette[3 * index + 1], palette[3 * index + 2]))
    else None
  }

  /** The loop of `get_dominant_colors`: ranks the pairs, looks up every ranked
      index in order (the first one the palette cannot supply raises), then keeps
      the first `numColors` colours. */
  method DominantColors(colorCounts: seq<ColorCount>, palette: seq<int>, numColors: nat)
    returns (r: Result<seq<Rgb>, RankError>)
    ensures var ranked := SortDescending(colorCounts);
      r.Ok? <==> forall k :: 0 <= k < |ranked| ==> PaletteColor(palette, ranked[k].index).Some?
    ensures var ranked := SortDescending(colorCounts);
      r.Ok? ==> (|r.value| == Min(numColors, |ranked|)
        && forall k :: 0 <= k < |r.value| ==> PaletteColor(palette, ranked[k].index) == Some(r.value[k]))
    ensures var ranked := SortDescending(colorCounts);
      r.Err? ==> exists k :: (0 <= k < |ranked| && r.error == UnpackError(ranked[k].index)
        && PaletteColor(palette, ranked[k].index).None?
        && forall j :: 0 <= j < k ==> PaletteColor(palette, ranked[j].index).Some?)
  {
    var ranked := SortDescending(colorCounts);
    var colors: seq<Rgb> := [];
    var i := 0;
    while i < |ranked|
      invariant 0 <= i <= |ranked|
      invariant |colors| == i
      invariant forall k :: 0 <= k < i ==> PaletteColor(palette, ranked[k].index) == Some(colors[k])
    {
      var idx := ranked[i].index;
      var c := PaletteColor(palette, idx);
      if c.None? {
        return Err(UnpackError(idx));
      }
      colors := colors + [c.value];
      i := i + 1;
    }
    r := Ok(colors[..Min(numColors, |colors|)]);
  }

  /** The ranking fails exactly when some pair of the input, in any position,
      names an index the palette cannot supply. */
  lemma RankingFailsIff(colorCounts: seq<ColorCount>, palette: seq<int>)
    ensures (forall k :: 0 <= k < |SortDescending(colorCounts)| ==>
               PaletteColor(palette, SortDescending(colorCounts)[k].index).Some?)
        <==> (forall e :: e in colorCounts ==> 3 * e.index + 3 <= |palette|)
  {
    var ranked := SortDescending(colorCounts);
    if forall k :: 0 <= k < |ranked| ==> PaletteColor(palette, ranked[k].index).Some? {
      forall e | e in colorCounts ensures 3 * e.index + 3 <= |palette| {
        assert e in multiset(ranked);
        var k :| 0 <= k < |ranked| && ranked[k] == e;
        assert PaletteColor(palette, ranked[k].index).Some?;
      }
    } else {
      var k :| 0 <= k < |ranked| && PaletteColor(palette, ranked[k].index).None?;
      var e := ranked[k];
      assert e in multiset(colorCounts);
      assert e in colorCounts && 3 * e.index + 3 > |palette|;
    }
  }

  /** The kept colours come from the pairs with the largest counts: every pair
      left out has a count no larger than that of any pair kept. */
  lemma {:induction false} KeptAreTop(colorCounts: seq<ColorCount>, n: nat, e: ColorCount)
    requires e in colorCounts
    ensures var ranked := SortDescending(colorCounts);
      n <= |ranked| ==>
        e in ranked[..n] || forall k :: 0 <= k < n ==> ranked[k].count >= e.count
  {
    var ranked := SortDescending(colorCounts);
    assert e in multiset(colorCounts);
    var j :| 0 <= j < |ranked| && ranked[j] == e;
    if n <= |ranked| && j < n {
      assert ranked[..n][j] == e;
    }
  }

  /** Counts never increase along the ranking. */
  lemma RankedByCount(colorCounts: seq<ColorCount>, i: nat, j: nat)
    requires i < j < |SortDescending(colorCounts)|
    ensures SortDescending(colorCounts)[i].count >= SortDescending(colorCounts)[j].count
  {
  }
}
