/** `extractColorsFromPixelData`: the distinct (r, g, b) of the pixels that are
    not fully transparent, in the order a JavaScript `Set` first receives them,
    then stably sorted from brightest to darkest. */
module Palette {
  import opened Pixels

  // ---- Specification ----

  /** The colours a `Set` holds after the first `n` loop steps: a colour is
      appended when a complete opaque pixel shows it for the first time, and a
      colour already present keeps its place. */
  function FirstSeen(s: seq<Byte>, n: nat): seq<Color>
  {
    if n == 0 then []
    else
      var p := FirstSeen(s, n - 1);
      if IsOpaque(s, n - 1) && PixelColor(s, n - 1) !in p then p + [PixelColor(s, n - 1)] else p
  }

  /** `a` is shown by an opaque pixel among the first `n` before any opaque pixel shows `b`. */
  ghost predicate AppearsBefore(s: seq<Byte>, n: nat, a: Color, b: Color) {
    exists k :: 0 <= k < n && IsOpaque(s, k) && PixelColor(s, k) == a &&
      forall m :: 0 <= m <= k && IsOpaque(s, m) ==> PixelColor(s, m) != b
  }

  predicate SortedByBrightness(p: seq<Color>) {
    forall i, j :: 0 <= i < j < |p| ==> Brightness(p[i]) >= Brightness(p[j])
  }

  /** The colours of `p` whose brightness is `v`, in their order in `p`. */
  function WithBrightness(p: seq<Color>, v: int): seq<Color> {
    if p == [] then []
    else (if Brightness(p[0]) == v then [p[0]] else []) + WithBrightness(p[1..], v)
  }

  /** Places `x` after every colour of `t` at least as bright as `x`: the step a
      stable descending sort takes for an element that comes after all of `t`. */
  function InsertByBrightness(x: Color, t: seq<Color>): seq<Color>
  {
    if t == [] || Brightness(t[0]) < Brightness(x) then [x] + t
    else [t[0]] + InsertByBrightness(x, t[1..])
  }

  /** The result of `sort` with the comparator `brightness(b) - brightness(a)`.
      `Array.prototype.sort` is stable, so colours of equal brightness keep their order. */
  function SortByBrightness(s: seq<Color>): seq<Color>
  {
    if s == [] then [] else InsertByBrightness(s[|s| - 1], SortByBrightness(s[..|s| - 1]))
  }

  /** What `extractColorsFromPixelData` returns for the buffer `s`. */
  function ExtractedPalette(s: seq<Byte>): seq<Color> {
    SortByBrightness(FirstSeen(s, |s| / 4))
  }

  // ---- Implementation ----

  /** The scan of the buffer, four bytes per step, then the sort. A trailing
      partial pixel has no alpha byte (`undefined > 0` is false), so it is skipped. */
  method ExtractColorsFromPixelData(pixelData: array<Byte>) returns (colors: seq<Color>)
    ensures colors == ExtractedPalette(pixelData[..])
  {
    ghost var s := pixelData[..];
    var seen: seq<Color> := [];
    var i := 0;
    while i < pixelData.Length
      invariant 0 <= i <= pixelData.Length + 3 && i % 4 == 0
      invariant seen == FirstSeen(s, i / 4)
    {
      if i + 3 < pixelData.Length && pixelData[i + 3] > 0 {
        var c := Color(pixelData[i], pixelData[i + 1], pixelData[i + 2]);
        if c !in seen {
          seen := seen + [c];
        }
      }
      i := i + 4;
    }
    FirstSeenPastEnd(s, i / 4);
    var a := new Color[|seen|](k requires 0 <= k < |seen| => seen[k]);
    assert a[..] == FirstSeen(s, |s| / 4);
    SortByBrightnessInPlace(a);
    colors := a[..];
    assert pixelData[..] == s;
  }

  /** Stable insertion sort, brightest first, in place. */
  method SortByBrightnessInPlace(a: array<Color>)
    modifies a
    ensures a[..] == SortByBrightness(old(a[..]))
  {
    ghost var input := a[..];
    var i := 0;
    while i < a.Length
      invariant 0 <= i <= a.Length
      invariant a[..i] == SortByBrightness(input[..i])
      invariant a[i..] == input[i..]
    {
      SortIsSorted(input[..i]);
      InsertLast(a, i);
      assert input[..i + 1] == input[..i] + [input[i]];
      i := i + 1;
    }
    assert input[..a.Length] == input;
  }

  /** One step of the insertion sort: `a[i]` moves left past the darker colours
      of the sorted prefix `a[..i]`. */
  method InsertLast(a: array<Color>, i: nat)
    requires i < a.Length && SortedByBrightness(a[..i])
    modifies a
    ensures a[..i + 1] == InsertByBrightness(old(a[i]), old(a[..i]))
    ensures a[i + 1..] == old(a[i + 1..])
  {
    var x := a[i];
    ghost var t := a[..i];
    var j := i;
    while j > 0 && Brightness(a[j - 1]) < Brightness(x)
      invariant 0 <= j <= i
      invariant forall k :: 0 <= k < j ==> a[k] == t[k]
      invariant forall k :: j < k <= i ==> a[k] == t[k - 1]
      invariant forall k :: j <= k < i ==> Brightness(t[k]) < Brightness(x)
      invariant a[i + 1..] == old(a[i + 1..])
    {
      a[j] := a[j - 1];
      j := j - 1;
    }
    a[j] := x;
    PlacedIsInserted(x, t, j, a[..i + 1]);
  }

  // ---- The scan ----

  /** No colour is added twice. */
  lemma {:induction false} FirstSeenNoDuplicates(s: seq<Byte>, n: nat)
    ensures NoDuplicates(FirstSeen(s, n))
  {
    if n > 0 {
      FirstSeenNoDuplicates(s, n - 1);
    }
  }

  /** A colour is collected exactly when some complete pixel among the first `n`
      has that colour and a non-zero alpha. */
  lemma {:induction false} FirstSeenMembers(s: seq<Byte>, n: nat, c: Color)
    ensures c in FirstSeen(s, n) <==> exists k :: 0 <= k < n && IsOpaque(s, k) && PixelColor(s, k) == c
  {
    if n > 0 {
      FirstSeenMembers(s, n - 1, c);
      if IsOpaque(s, n - 1) && PixelColor(s, n - 1) == c {
        assert c in FirstSeen(s, n);
      }
    }
  }

  /** Colours are held in the order of their first opaque pixel. */
  lemma {:induction false} FirstSeenOrder(s: seq<Byte>, n: nat, i: nat, j: nat)
    requires i < j < |FirstSeen(s, n)|
    ensures AppearsBefore(s, n, FirstSeen(s, n)[i], FirstSeen(s, n)[j])
  {
    var p := FirstSeen(s, n - 1);
    var a, b := FirstSeen(s, n)[i], FirstSeen(s, n)[j];
    if j < |p| {
      FirstSeenOrder(s, n - 1, i, j);
      var k :| 0 <= k < n - 1 && IsOpaque(s, k) && PixelColor(s, k) == a &&
        forall m :: 0 <= m <= k && IsOpaque(s, m) ==> PixelColor(s, m) != b;
    } else {
      // `b` is the colour of pixel n - 1, seen there for the first time
      assert b == PixelColor(s, n - 1) && b !in p;
      FirstSeenMembers(s, n - 1, a);
      var k :| 0 <= k < n - 1 && IsOpaque(s, k) && PixelColor(s, k) == a;
      forall m | 0 <= m <= k && IsOpaque(s, m)
        ensures PixelColor(s, m) != b
      {
        FirstSeenMembers(s, n - 1, b);
      }
    }
  }

  /** At most one colour per complete pixel. */
  lemma {:induction false} FirstSeenLength(s: seq<Byte>, n: nat)
    ensures |FirstSeen(s, n)| <= n
    ensures |FirstSeen(s, n)| <= |s| / 4
  {
    if n > 0 {
      FirstSeenLength(s, n - 1);
      if n - 1 >= |s| / 4 {
        assert !IsFullPixel(s, n - 1);
      }
    }
  }

  /** Steps past the last complete pixel add nothing. */
  lemma {:induction false} FirstSeenPastEnd(s: seq<Byte>, n: nat)
    requires n >= |s| / 4
    ensures FirstSeen(s, n) == FirstSeen(s, |s| / 4)
  {
    if n > |s| / 4 {
      assert !IsFullPixel(s, n - 1);
      FirstSeenPastEnd(s, n - 1);
    }
  }

  // ---- The sort ----

  /** Inserting adds exactly `x`. */
  lemma {:induction false} InsertPermutes(x: Color, t: seq<Color>)
    ensures multiset(InsertByBrightness(x, t)) == multiset(t) + multiset{x}
  {
    if t != [] && Brightness(t[0]) >= Brightness(x) {
      InsertPermutes(x, t[1..]);
      assert t == [t[0]] + t[1..];
    }
  }

  /** The sort rearranges its input: every colour is kept, none is added. */
  lemma {:induction false} SortPermutes(s: seq<Color>)
    ensures multiset(SortByBrightness(s)) == multiset(s)
  {
    if s != [] {
      SortPermutes(s[..|s| - 1]);
      InsertPermutes(s[|s| - 1], SortByBrightness(s[..|s| - 1]));
      assert s == s[..|s| - 1] + [s[|s| - 1]];
    }
  }

  /** Inserting into a sorted sequence keeps it sorted. */
  lemma {:induction false} InsertSorted(x: Color, t: seq<Color>)
    requires SortedByBrightness(t)
    ensures SortedByBrightness(InsertByBrightness(x, t))
  {
    if t == [] || Brightness(t[0]) < Brightness(x) {
      PrependSorted(x, t);
    } else {
      InsertSorted(x, t[1..]);
      InsertPermutes(x, t[1..]);
      forall y | y in InsertByBrightness(x, t[1..])
        ensures Brightness(t[0]) >= Brightness(y)
      {
        assert y in multiset(InsertByBrightness(x, t[1..]));
        if y != x {
          HeadIsBrightest(t, y);
        }
      }
      PrependSorted(t[0], InsertByBrightness(x, t[1..]));
    }
  }

  /** A colour at least as bright as everything in a sorted sequence can go in front of it. */
  lemma PrependSorted(x: Color, t: seq<Color>)
    requires SortedByBrightness(t)
    requires forall y :: y in t ==> Brightness(x) >= Brightness(y)
    ensures SortedByBrightness([x] + t)
  {
    var r := [x] + t;
    forall i, k | 0 <= i < k < |r|
      ensures Brightness(r[i]) >= Brightness(r[k])
    {
      assert r[k] == t[k - 1];
      if i > 0 {
        assert r[i] == t[i - 1];
      }
    }
  }

  lemma HeadIsBrightest(t: seq<Color>, y: Color)
    requires SortedByBrightness(t) && t != [] && y in t[1..]
    ensures Brightness(t[0]) >= Brightness(y)
  {
    var k :| 0 <= k < |t[1..]| && t[1..][k] == y;
    assert t[k + 1] == y;
  }

  /** The sort puts brighter colours first. */
  lemma {:induction false} SortIsSorted(s: seq<Color>)
    ensures SortedByBrightness(SortByBrightness(s))
  {
    if s != [] {
      SortIsSorted(s[..|s| - 1]);
      InsertSorted(s[|s| - 1], SortByBrightness(s[..|s| - 1]));
    }
  }

  /** Where `InsertByBrightness` puts `x`: before the first colour darker than `x`. */
  lemma {:induction false} InsertAt(x: Color, t: seq<Color>, j: nat)
    requires SortedByBrightness(t) && j <= |t|
    requires j > 0 ==> Brightness(t[j - 1]) >= Brightness(x)
    requires forall k :: j <= k < |t| ==> Brightness(t[k]) < Brightness(x)
    ensures InsertByBrightness(x, t) == t[..j] + [x] + t[j..]
  {
    if j == 0 {
      assert t[..j] + [x] + t[j..] == [x] + t;
    } else {
      assert Brightness(t[0]) >= Brightness(x) by {
        assert Brightness(t[0]) >= Brightness(t[j - 1]);
      }
      var u := t[1..];
      InsertAtTail(x, t, j);
      InsertAt(x, u, j - 1);
      SliceAfterHead(t, j);
    }
  }

  /** The tail of `t` meets the requirements of `InsertAt` one place earlier. */
  lemma InsertAtTail(x: Color, t: seq<Color>, j: nat)
    requires SortedByBrightness(t) && 0 < j <= |t|
    requires forall k :: j <= k < |t| ==> Brightness(t[k]) < Brightness(x)
    ensures SortedByBrightness(t[1..])
    ensures forall k :: j - 1 <= k < |t| - 1 ==> Brightness(t[1..][k]) < Brightness(x)
  {
    var u := t[1..];
    forall i, k | 0 <= i < k < |u| ensures Brightness(u[i]) >= Brightness(u[k]) {
      assert u[i] == t[i + 1] && u[k] == t[k + 1];
    }
    forall k | j - 1 <= k < |u| ensures Brightness(u[k]) < Brightness(x) {
      assert u[k] == t[k + 1];
    }
  }

  lemma SliceAfterHead<T>(t: seq<T>, j: nat)
    requires 0 < j <= |t|
    ensures t[..j] == [t[0]] + t[1..][..j - 1]
    ensures t[j..] == t[1..][j - 1..]
  {
  }

  /** The sequence the inner loop of the insertion sort leaves behind is `InsertByBrightness(x, t)`. */
  lemma PlacedIsInserted(x: Color, t: seq<Color>, j: nat, r: seq<Color>)
    requires SortedByBrightness(t) && j <= |t| && |r| == |t| + 1
    requires j > 0 ==> Brightness(t[j - 1]) >= Brightness(x)
    requires forall k :: j <= k < |t| ==> Brightness(t[k]) < Brightness(x)
    requires forall k :: 0 <= k < j ==> r[k] == t[k]
    requires r[j] == x
    requires forall k :: j < k < |r| ==> r[k] == t[k - 1]
    ensures r == InsertByBrightness(x, t)
  {
    InsertAt(x, t, j);
    assert r == t[..j] + [x] + t[j..];
  }

  lemma {:induction false} WithBrightnessAppend(a: seq<Color>, b: seq<Color>, v: int)
    ensures WithBrightness(a + b, v) == WithBrightness(a, v) + WithBrightness(b, v)
  {
    if a == [] {
      assert a + b == b;
    } else {
      var h := if Brightness(a[0]) == v then [a[0]] else [];
      assert WithBrightness(a + b, v) == h + WithBrightness(a[1..] + b, v) by {
        assert (a + b)[0] == a[0] && (a + b)[1..] == a[1..] + b;
      }
      WithBrightnessAppend(a[1..], b, v);
      var x, y := WithBrightness(a[1..], v), WithBrightness(b, v);
      assert h + (x + y) == (h + x) + y;
    }
  }

  /** A sequence darker than `v` has no colour of brightness `v`. */
  lemma {:induction false} WithBrightnessNone(t: seq<Color>, v: int)
    requires forall k :: 0 <= k < |t| ==> Brightness(t[k]) < v
    ensures WithBrightness(t, v) == []
  {
    if t != [] {
      WithBrightnessNone(t[1..], v);
    }
  }

  /** Inserting `x` puts it after every colour of its own brightness. */
  lemma {:induction false} InsertStable(x: Color, t: seq<Color>, v: int)
    requires SortedByBrightness(t)
    ensures WithBrightness(InsertByBrightness(x, t), v)
         == WithBrightness(t, v) + (if Brightness(x) == v then [x] else [])
  {
    var own := if Brightness(x) == v then [x] else [];
    if t == [] || Brightness(t[0]) < Brightness(x) {
      var r := [x] + t;
      assert r[0] == x && r[1..] == t;
      assert WithBrightness(r, v) == own + WithBrightness(t, v);
      if Brightness(x) == v {
        WithBrightnessNone(t, v);
      }
    } else {
      var u := InsertByBrightness(x, t[1..]);
      var head := if Brightness(t[0]) == v then [t[0]] else [];
      var r := [t[0]] + u;
      assert r[0] == t[0] && r[1..] == u;
      assert WithBrightness(r, v) == head + WithBrightness(u, v);
      InsertStable(x, t[1..], v);
      assert WithBrightness(t, v) == head + WithBrightness(t[1..], v);
    }
  }

  /** The sort is stable: colours of equal brightness keep their relative order. */
  lemma {:induction false} SortIsStable(s: seq<Color>, v: int)
    ensures WithBrightness(SortByBrightness(s), v) == WithBrightness(s, v)
  {
    if s != [] {
      var init, x := s[..|s| - 1], s[|s| - 1];
      SortIsStable(init, v);
      SortIsSorted(init);
      InsertStable(x, SortByBrightness(init), v);
      assert s == init + [x];
      WithBrightnessAppend(init, [x], v);
    }
  }

  /** A sequence without repeats has every element at most once in its multiset. */
  lemma {:induction false} NoDuplicatesMultiplicity<T>(s: seq<T>, x: T)
    requires NoDuplicates(s)
    ensures multiset(s)[x] <= 1
  {
    if s != [] {
      var init := s[..|s| - 1];
      assert s == init + [s[|s| - 1]];
      NoDuplicatesMultiplicity(init, x);
      if x == s[|s| - 1] {
        assert x !in init;
      }
    }
  }

  /** A rearrangement of a sequence without repeats has no repeats. */
  lemma PermutationNoDuplicates<T>(s: seq<T>, r: seq<T>)
    requires NoDuplicates(s) && multiset(r) == multiset(s)
    ensures NoDuplicates(r)
  {
    forall i, j | 0 <= i < j < |r|
      ensures r[i] != r[j]
    {
      if r[i] == r[j] {
        assert r == r[..j] + r[j..];
        assert r[i] in multiset(r[..j]) && r[j] in multiset(r[j..]);
        assert multiset(r)[r[i]] >= 2;
        NoDuplicatesMultiplicity(s, r[i]);
        assert false;
      }
    }
  }

  // ---- The extracted palette ----

  /** No (r, g, b) appears twice in the palette. */
  lemma PaletteNoDuplicates(s: seq<Byte>)
    ensures NoDuplicates(ExtractedPalette(s))
  {
    FirstSeenNoDuplicates(s, |s| / 4);
    SortPermutes(FirstSeen(s, |s| / 4));
    PermutationNoDuplicates(FirstSeen(s, |s| / 4), ExtractedPalette(s));
  }

  /** A colour is in the palette exactly when some complete pixel has it with a
      non-zero alpha; fully transparent pixels contribute nothing. */
  lemma PaletteMembers(s: seq<Byte>, c: Color)
    ensures c in ExtractedPalette(s) <==> exists k :: 0 <= k < |s| / 4 && IsOpaque(s, k) && PixelColor(s, k) == c
  {
    FirstSeenMembers(s, |s| / 4, c);
    SortPermutes(FirstSeen(s, |s| / 4));
    assert c in ExtractedPalette(s) <==> c in multiset(FirstSeen(s, |s| / 4));
  }

  /** The palette runs from brightest to darkest, colours of equal brightness in
      the order their first pixels appear, and it has at most one colour per pixel. */
  lemma PaletteOrder(s: seq<Byte>, v: int)
    ensures SortedByBrightness(ExtractedPalette(s))
    ensures WithBrightness(ExtractedPalette(s), v) == WithBrightness(FirstSeen(s, |s| / 4), v)
    ensures |ExtractedPalette(s)| <= |s| / 4
  {
    SortIsSorted(FirstSeen(s, |s| / 4));
    SortIsStable(FirstSeen(s, |s| / 4), v);
    FirstSeenLength(s, |s| / 4);
    SortPermutes(FirstSeen(s, |s| / 4));
    assert |ExtractedPalette(s)| == |multiset(ExtractedPalette(s))|;
  }
}
