/** The pattern engine of include/Lighting.h: the colour type, the frame
    buffer and palette globals, and the three routines the actions table can
    name (doAllOff, doFlashingColors, doSolidColors), plus rgbStringToColor.
    FastLED.show() is modelled as appending the frame to a ghost log. */
module Lighting {
  import opened Common
  import Utils

  /** NUM_LEDS: pixels on the strip. */
  const NUM_LEDS: nat := 11
  /** MAX_COLORS: capacity of the palette. */
  const MAX_COLORS: nat := 3

  /** FastLED's CRGB; equality is channel by channel. */
  datatype Color = Color(red: byte, green: byte, blue: byte)

  /** CRGB::Black, the "off" colour. */
  const Black: Color := Color(0, 0, 0)

  /** The routines that the actions table of the firmware maps names to. */
  datatype Action = AllOff | FlashingColors | SolidColors

  // ---------------------------------------------------------------------------
  // rgbStringToColor

  /** The byte spelled by the hex pair at positions i and i + 1 of s (a missing
      or non-hex character counts as 0). */
  function HexPairAt(s: string, i: nat): byte
  {
    16 * Utils.DigitAt(s, i) + Utils.DigitAt(s, i + 1)
  }

  /** Parsing the two-character substring at i reads the hex pair at i. */
  lemma SubstringPairParse(s: string, i: nat)
    ensures Utils.HexTo8BitDecimal(Utils.Substring(s, i, i + 2)) == HexPairAt(s, i)
  {
    var sub := Utils.Substring(s, i, i + 2);
    assert Utils.DigitAt(sub, 0) == Utils.DigitAt(s, i);
    assert Utils.DigitAt(sub, 1) == Utils.DigitAt(s, i + 1);
  }

  /** rgbStringToColor(s, begin): red, green and blue are the hex pairs at
      [begin, begin+2), [begin+2, begin+4) and [begin+4, begin+6). */
  function RgbStringToColor(s: string, begin: nat): (c: Color)
    ensures c == Color(HexPairAt(s, begin), HexPairAt(s, begin + 2), HexPairAt(s, begin + 4))
  {
    SubstringPairParse(s, begin);
    SubstringPairParse(s, begin + 2);
    SubstringPairParse(s, begin + 4);
    var red := Utils.HexTo8BitDecimal(Utils.Substring(s, begin, begin + 2));
    var green := Utils.HexTo8BitDecimal(Utils.Substring(s, begin + 2, begin + 4));
    var blue := Utils.HexTo8BitDecimal(Utils.Substring(s, begin + 4, begin + 6));
    Color(red, green, blue)
  }

  /** Parsing what rgbDecimalsToHex prints gives the colour back, both bare
      (begin index 0) and behind the '#' of an HTML colour input (begin index 1). */
  lemma {:induction false} ColorHexRoundTrip(c: Color)
    ensures RgbStringToColor(Utils.RgbDecimalsToHex(c.red, c.green, c.blue), 0) == c
    ensures RgbStringToColor("#" + Utils.RgbDecimalsToHex(c.red, c.green, c.blue), 1) == c
  {
    var hex := Utils.RgbDecimalsToHex(c.red, c.green, c.blue);
    assert HexPairAt(hex, 0) == c.red && HexPairAt(hex, 2) == c.green && HexPairAt(hex, 4) == c.blue;
    TaggedPairs(hex, 0);
    TaggedPairs(hex, 2);
    TaggedPairs(hex, 4);
  }

  /** A '#' in front shifts every hex pair by one position. */
  lemma TaggedPairs(hex: string, i: nat)
    ensures HexPairAt("#" + hex, i + 1) == HexPairAt(hex, i)
  {
    var tagged := "#" + hex;
    if i < |hex| {
      assert tagged[i + 1] == hex[i];
    }
    if i + 1 < |hex| {
      assert tagged[i + 2] == hex[i + 1];
    }
  }

  // ---------------------------------------------------------------------------
  // The time gate of doFlashingColors

  /** millis() - lastChange on 32-bit unsigned values: the forward distance
      from since to now around the clock's wrap-around. */
  function Elapsed(now: u32, since: u32): (d: u32)
    ensures (since + d) % U32_MODULUS == now
  {
    (now - since) % U32_MODULUS
  }

  /** Whatever the clock did between two readings less than 2^32 ms apart,
      including wrapping past zero, Elapsed gives the real time between them;
      so the single unsigned comparison of the gate needs no further wrap-around check. */
  lemma {:induction false} ElapsedAcrossWrap(since: nat, now: nat)
    requires since <= now < since + U32_MODULUS
    ensures Elapsed(now % U32_MODULUS, since % U32_MODULUS) == now - since
  {
    var m := U32_MODULUS;
    var qs, qn := since / m, now / m;
    assert since == qs * m + since % m;
    assert now == qn * m + now % m;
    var diff := now % m - since % m;
    assert diff == (now - since) - (qn - qs) * m;
    if now % m >= since % m {
      assert qn == qs;
    } else {
      assert qn == qs + 1;
      assert diff + m == now - since;
    }
  }

  // ---------------------------------------------------------------------------
  // The colour choice of doFlashingColors

  /** The first index of c in p, if any. */
  function FindColor(p: seq<Color>, c: Color): (r: Option<nat>)
    ensures r.Some? ==> r.value < |p| && p[r.value] == c
    ensures r.Some? ==> forall k :: 0 <= k < r.value ==> p[k] != c
    ensures r.None? ==> forall k :: 0 <= k < |p| ==> p[k] != c
  {
    if |p| == 0 then None
    else if p[0] == c then Some(0)
    else match FindColor(p[1..], c)
      case None => None
      case Some(j) => Some(j + 1)
  }

  /** The colour a gated update of doFlashingColors shows after last: with one
      colour, that colour and Black alternate; with more, the entry after the
      first occurrence of last (wrapping to the first), or the first entry when
      last is not in the palette. */
  function NextFlashColor(last: Color, p: seq<Color>): Color
    requires 1 <= |p|
  {
    if |p| == 1 then (if last == p[0] then Black else p[0])
    else match FindColor(p, last)
      case Some(j) => p[(j + 1) % |p|]
      case None => p[0]
  }

  /** The colour shown after k gated updates starting from last. */
  function FlashSequence(k: nat, last: Color, p: seq<Color>): Color
    requires 1 <= |p|
  {
    if k == 0 then last else FlashSequence(k - 1, NextFlashColor(last, p), p)
  }

  /** No colour appears twice in p. */
  predicate Distinct(p: seq<Color>)
  {
    forall i, j :: 0 <= i < j < |p| ==> p[i] != p[j]
  }

  /** With a single colour c other than Black, and the initial lastColor
      Black, the gated updates show c, Black, c, Black, ... */
  lemma {:induction false} FlashSingleColorAlternates(c: Color, k: nat)
    requires c != Black
    ensures FlashSequence(k, Black, [c]) == if k % 2 == 1 then c else Black
  {
    if k >= 2 {
      calc {
        FlashSequence(k, Black, [c]);
        FlashSequence(k - 1, c, [c]);
        FlashSequence(k - 2, Black, [c]);
        { FlashSingleColorAlternates(c, k - 2); }
        if (k - 2) % 2 == 1 then c else Black;
      }
    }
  }

  /** In a palette without repeats, each entry is followed by the next one. */
  lemma NextOfDistinct(p: seq<Color>, j: nat)
    requires 2 <= |p| && Distinct(p) && j < |p|
    ensures NextFlashColor(p[j], p) == p[if j + 1 < |p| then j + 1 else 0]
  {
    assert FindColor(p, p[j]) == Some(j);
    if j + 1 < |p| {
      DivModUnique(j + 1, |p|, 0, j + 1);
    } else {
      DivModUnique(j + 1, |p|, 1, 0);
    }
  }

  /** Adding the modulus does not change the remainder. */
  lemma ModAddModulus(x: nat, n: nat)
    requires 0 < n
    ensures (x + n) % n == x % n
  {
    var q, r := x / n, x % n;
    DivModUnique(x, n, q, r);
    assert x + n == (q + 1) * n + r by {
      assert (q + 1) * n == q * n + n;
    }
    DivModUnique(x + n, n, q + 1, r);
  }

  /** Stepping to the next index and then k - 1 further lands where k steps from j land. */
  lemma WrapStep(j: nat, k: nat, n: nat)
    requires j < n && 0 < k
    ensures ((if j + 1 < n then j + 1 else 0) + (k - 1)) % n == (j + k) % n
  {
    if j + 1 == n {
      ModAddModulus(k - 1, n);
      assert (k - 1) + n == j + k;
    }
  }

  /** With two or three distinct colours, the gated updates walk the palette in
      order from wherever they start, wrapping from the last entry to the first. */
  lemma {:induction false} FlashCyclesThroughPalette(p: seq<Color>, j: nat, k: nat)
    requires 2 <= |p| <= MAX_COLORS && Distinct(p) && j < |p|
    ensures FlashSequence(k, p[j], p) == p[(j + k) % |p|]
    decreases k
  {
    if k > 0 {
      var j' := if j + 1 < |p| then j + 1 else 0;
      NextOfDistinct(p, j);
      assert FlashSequence(k, p[j], p) == FlashSequence(k - 1, p[j'], p);
      FlashCyclesThroughPalette(p, j', k - 1);
      WrapStep(j, k, |p|);
    }
  }

  /** A colour that is not in the palette (the palette was just edited) is
      followed by the first palette entry. */
  lemma FlashFallsBackToFirst(last: Color, p: seq<Color>)
    requires 2 <= |p| && forall k :: 0 <= k < |p| ==> p[k] != last
    ensures NextFlashColor(last, p) == p[0]
  {
  }

  /** A colour whose first occurrence is directly followed by a copy of itself
      is shown for ever: the search always stops at the first copy. */
  lemma {:induction false} FlashStuckOnRepeat(p: seq<Color>, j: nat, k: nat)
    requires 2 <= |p| && j + 1 < |p| && p[j + 1] == p[j]
    requires forall i :: 0 <= i < j ==> p[i] != p[j]
    ensures FlashSequence(k, p[j], p) == p[j]
  {
    if k > 0 {
      assert FindColor(p, p[j]) == Some(j);
      assert (j + 1) % |p| == j + 1;
      assert NextFlashColor(p[j], p) == p[j];
      assert FlashSequence(k, p[j], p) == FlashSequence(k - 1, p[j], p);
      FlashStuckOnRepeat(p, j, k - 1);
    }
  }

  /** After two "add"s the page's palette is [c, Black, Black]; committing it
      leaves doFlashingColors, which starts from Black, showing Black for ever. */
  lemma {:induction false} FlashTwoAddedBlacksStayDark(c: Color, k: nat)
    requires c != Black
    ensures FlashSequence(k, Black, [c, Black, Black]) == Black
  {
    var p := [c, Black, Black];
    FlashStuckOnRepeat(p, 1, k);
  }

  // ---------------------------------------------------------------------------
  // Frames written by the routines

  /** Every pixel the same colour. */
  function Fill(c: Color): (f: seq<Color>)
    ensures |f| == NUM_LEDS && forall k :: 0 <= k < NUM_LEDS ==> f[k] == c
  {
    seq(NUM_LEDS, _ => c)
  }

  /** doAllOff's frame: the first MAX_COLORS pixels Black, the rest as before. */
  function AllOffFrame(f: seq<Color>): (r: seq<Color>)
    requires |f| == NUM_LEDS
    ensures |r| == NUM_LEDS
  {
    seq(NUM_LEDS, k requires 0 <= k < NUM_LEDS => if k < MAX_COLORS then Black else f[k])
  }

  /** doAllOff darkens the whole strip exactly when pixels 3..10 were already
      dark; a lit pixel past MAX_COLORS keeps its colour. */
  lemma AllOffDarkensOnlyHead(f: seq<Color>)
    requires |f| == NUM_LEDS
    ensures AllOffFrame(f) == Fill(Black) <==> forall k :: MAX_COLORS <= k < NUM_LEDS ==> f[k] == Black
    ensures forall k :: MAX_COLORS <= k < NUM_LEDS ==> AllOffFrame(f)[k] == f[k]
  {
    var r := AllOffFrame(f);
    assert forall k :: MAX_COLORS <= k < NUM_LEDS ==> r[k] == f[k];
    if forall k :: MAX_COLORS <= k < NUM_LEDS ==> f[k] == Black {
      assert forall k :: 0 <= k < NUM_LEDS ==> r[k] == Fill(Black)[k];
      assert r == Fill(Black);
    }
    if r == Fill(Black) {
      assert forall k :: MAX_COLORS <= k < NUM_LEDS ==> f[k] == Fill(Black)[k];
    }
  }

  /** doSolidColors' smallGroupSize: largeGroupSize = NUM_LEDS / size, then
      largeGroupSize / size rounded up. */
  function GroupSize(size: nat): nat
    requires 1 <= size
  {
    var large := NUM_LEDS / size;
    if large % size == 0 then large / size else large / size + 1
  }

  /** The group size is 11, 3 and 1 for one, two and three colours, and it is
      positive exactly while size <= NUM_LEDS (beyond, i % 0 would divide by zero). */
  lemma GroupSizeValues(size: nat)
    requires 1 <= size
    ensures GroupSize(1) == 11 && GroupSize(2) == 3 && GroupSize(3) == 1
    ensures GroupSize(size) >= 1 <==> size <= NUM_LEDS
  {
    if size > NUM_LEDS {
      assert NUM_LEDS / size == 0;
    } else if size > 3 {
      assert NUM_LEDS / size < size;
    }
  }

  /** The palette index doSolidColors uses for pixel i - 1 (i counted from 1). */
  function SolidColorIndex(i: nat, size: nat): (k: nat)
    requires 1 <= size <= MAX_COLORS
    ensures k < size
  {
    GroupSizeValues(size);
    (i / GroupSize(size)) % size
  }

  /** doSolidColors' frame for palette p. */
  function SolidFrame(p: seq<Color>): (f: seq<Color>)
    requires 1 <= |p| <= MAX_COLORS
    ensures |f| == NUM_LEDS
    ensures forall k :: 0 <= k < NUM_LEDS ==> f[k] == p[SolidColorIndex(k + 1, |p|)]
  {
    seq(NUM_LEDS, k requires 0 <= k < NUM_LEDS => p[SolidColorIndex(k + 1, |p|)])
  }

  /** What doSolidColors actually draws: one colour fills the strip; two colours
      give 2, 3, 3, 3 pixels alternating from the first; three colours alternate
      pixel by pixel starting with the second colour, so no colour forms a
      contiguous group. */
  lemma {:induction false} SolidFrameShape(p: seq<Color>)
    requires 1 <= |p| <= MAX_COLORS
    ensures |p| == 1 ==> SolidFrame(p) == Fill(p[0])
    ensures |p| == 2 ==> SolidFrame(p) == [p[0], p[0], p[1], p[1], p[1], p[0], p[0], p[0], p[1], p[1], p[1]]
    ensures |p| == 3 ==> forall k :: 0 <= k < NUM_LEDS ==> SolidFrame(p)[k] == p[(k + 1) % 3]
  {
    GroupSizeValues(|p|);
    var f := SolidFrame(p);
    if |p| == 1 {
      assert forall k :: 0 <= k < NUM_LEDS ==> f[k] == Fill(p[0])[k];
    } else if |p| == 2 {
      assert f[0] == p[0] && f[1] == p[0] && f[2] == p[1] && f[3] == p[1] && f[4] == p[1];
      assert f[5] == p[0] && f[6] == p[0] && f[7] == p[0] && f[8] == p[1] && f[9] == p[1];
      assert f[10] == p[1];
    }
  }

  /** Quotient and remainder are determined by x == q * g + r with 0 <= r < g. */
  lemma DivModUnique(x: int, g: int, q: int, r: int)
    requires 0 < g && 0 <= r < g && x == q * g + r
    ensures x / g == q && x % g == r
  {
    var q', r' := x / g, x % g;
    assert x == q' * g + r';
    assert (q - q') * g == r' - r;
    if q > q' {
      MulAtLeast(q - q', g);
    } else if q < q' {
      MulAtLeast(q' - q, g);
    }
  }

  lemma MulAtLeast(d: int, g: int)
    requires 1 <= d && 0 < g
    ensures d * g >= g
  {
  }

  /** Counting i up by one moves i / g up by one exactly when g divides i. */
  lemma DivStep(i: nat, g: nat)
    requires 1 <= i && 1 <= g
    ensures i / g == (i - 1) / g + (if i % g == 0 then 1 else 0)
  {
    var q, r := (i - 1) / g, (i - 1) % g;
    DivModUnique(i - 1, g, q, r);
    if r + 1 < g {
      DivModUnique(i, g, q, r + 1);
    } else {
      assert i == (q + 1) * g + 0;
      DivModUnique(i, g, q + 1, 0);
    }
  }

  /** One step of doSolidColors' running colorIndex (Lighting.h:116) keeps it
      equal to SolidColorIndex. */
  lemma SolidIndexStep(i: nat, size: nat, colorIndex: nat)
    requires 1 <= i && 1 <= size <= MAX_COLORS
    requires colorIndex == ((i - 1) / GroupSize(size)) % size
    ensures (if i % GroupSize(size) == 0
             then (if colorIndex < size - 1 then colorIndex + 1 else 0)
             else colorIndex) == SolidColorIndex(i, size)
  {
    var g := GroupSize(size);
    GroupSizeValues(size);
    DivStep(i, g);
    if i % g == 0 {
      var q := (i - 1) / g;
      assert i / g == q + 1;
      DivModUnique(q, size, q / size, q % size);
      if colorIndex < size - 1 {
        DivModUnique(q + 1, size, q / size, q % size + 1);
      } else {
        assert q + 1 == (q / size + 1) * size + 0 by {
          assert (q / size + 1) * size == (q / size) * size + size;
        }
        DivModUnique(q + 1, size, q / size + 1, 0);
      }
    }
  }

  // ---------------------------------------------------------------------------
  // The engine globals and the routines

  /** The globals of Lighting.h (leds, actionColors, actionColorsSize,
      actionDelay, currentAction) with the statics of doFlashingColors. */
  class Engine {
    /** CRGB leds[NUM_LEDS]. */
    const leds: array<Color>
    /** CRGB actionColors[MAX_COLORS]; the first actionColorsSize are active. */
    const actionColors: array<Color>
    var actionColorsSize: nat
    var actionDelay: u32
    /** The routine loop() runs; None is a null routine pointer. */
    var currentAction: Option<Action>
    /** doFlashingColors' statics lastColor and lastChange. */
    var lastColor: Color
    var lastChange: u32
    /** Frames pushed to the strip by FastLED.show(), oldest first. */
    ghost var shown: seq<seq<Color>>

    ghost predicate Valid()
      reads this
    {
      && leds.Length == NUM_LEDS
      && actionColors.Length == MAX_COLORS
      && leds != actionColors
      && 1 <= actionColorsSize <= MAX_COLORS
    }

    /** The active palette. */
    function Palette(): (p: seq<Color>)
      reads this, actionColors
      requires Valid()
      ensures 1 <= |p| <= MAX_COLORS
    {
      actionColors[..actionColorsSize]
    }

    /** The globals as declared, before setup(): everything Black, one colour,
        70 ms, doFlashingColors selected, and the flashing statics at Black and 0. */
    constructor ()
      ensures Valid() && fresh(leds) && fresh(actionColors)
      ensures leds[..] == Fill(Black) && actionColors[..] == [Black, Black, Black]
      ensures actionColorsSize == 1 && actionDelay == 70 && currentAction == Some(FlashingColors)
      ensures lastColor == Black && lastChange == 0 && shown == []
    {
      leds := new Color[NUM_LEDS](_ => Black);
      actionColors := new Color[MAX_COLORS](_ => Black);
      actionColorsSize := 1;
      actionDelay := 70;
      currentAction := Some(FlashingColors);
      lastColor := Black;
      lastChange := 0;
      shown := [];
      new;
      assert leds[..] == Fill(Black);
      assert actionColors[..] == [Black, Black, Black];
    }

    /** The state after running routine a once, given the frame, the flashing
        statics and the log before it; now and later are the two clock
        readings of doFlashingColors. */
    ghost predicate Rendered(a: Action, leds0: seq<Color>, lastColor0: Color, lastChange0: u32,
                             shown0: seq<seq<Color>>, now: u32, later: u32)
      reads this, leds, actionColors
      requires Valid() && |leds0| == NUM_LEDS
    {
      match a
      case AllOff =>
        && leds[..] == AllOffFrame(leds0)
        && lastColor == lastColor0 && lastChange == lastChange0
        && shown == shown0 + [leds[..]]
      case SolidColors =>
        && leds[..] == SolidFrame(Palette())
        && lastColor == lastColor0 && lastChange == lastChange0
        && shown == shown0 + [leds[..]]
      case FlashingColors =>
        if Elapsed(now, lastChange0) >= actionDelay then
          && lastColor == NextFlashColor(lastColor0, Palette())
          && leds[..] == Fill(lastColor)
          && lastChange == later
          && shown == shown0 + [leds[..]]
        else
          && leds[..] == leds0
          && lastColor == lastColor0 && lastChange == lastChange0
          && shown == shown0
    }

    /** The colour choice of doFlashingColors (Lighting.h:47-71). */
    method ChooseNextColor() returns (nextColor: Color)
      requires Valid()
      ensures nextColor == NextFlashColor(lastColor, Palette())
    {
      if actionColorsSize == 1 {
        if lastColor == actionColors[0] {
          nextColor := Black;
        } else {
          nextColor := actionColors[0];
        }
      } else {
        var nextFound := false;
        nextColor := actionColors[0];
        var i := 0;
        while i < actionColorsSize
          invariant 0 <= i <= actionColorsSize
          invariant forall k :: 0 <= k < i ==> actionColors[k] != lastColor
        {
          if actionColors[i] == lastColor {
            nextFound := true;
            assert FindColor(Palette(), lastColor) == Some(i);
            if i == actionColorsSize - 1 {
              nextColor := actionColors[0];
            } else {
              nextColor := actionColors[i + 1];
            }
            break;
          }
          i := i + 1;
        }
        if !nextFound {
          assert FindColor(Palette(), lastColor) == None;
          nextColor := actionColors[0];
        }
      }
    }

    /** doFlashingColors: when at least actionDelay ms have passed since the last
        change (unsigned difference), every pixel gets the next colour, the frame
        is shown and the statics move on; otherwise nothing changes. */
    method DoFlashingColors(now: u32, later: u32)
      requires Valid()
      modifies leds, this`lastColor, this`lastChange, this`shown
      ensures Valid()
      ensures Rendered(FlashingColors, old(leds[..]), old(lastColor), old(lastChange), old(shown), now, later)
    {
      if Elapsed(now, lastChange) >= actionDelay {
        var nextColor := ChooseNextColor();
        var i := 0;
        while i < NUM_LEDS
          invariant 0 <= i <= NUM_LEDS
          invariant forall k :: 0 <= k < i ==> leds[k] == nextColor
          modifies leds
        {
          leds[i] := nextColor;
          i := i + 1;
        }
        assert leds[..] == Fill(nextColor);
        shown := shown + [leds[..]];
        lastColor := nextColor;
        lastChange := later;
      }
    }

    /** doAllOff: sets the first MAX_COLORS pixels (not all NUM_LEDS) to Black
        and shows the frame. */
    method DoAllOff()
      requires Valid()
      modifies leds, this`shown
      ensures Valid()
      ensures Rendered(AllOff, old(leds[..]), lastColor, lastChange, old(shown), 0, 0)
    {
      var i := 0;
      while i < MAX_COLORS
        invariant 0 <= i <= MAX_COLORS
        invariant forall k :: 0 <= k < i ==> leds[k] == Black
        invariant forall k :: i <= k < NUM_LEDS ==> leds[k] == old(leds[k])
        modifies leds
      {
        leds[i] := Black;
        i := i + 1;
      }
      assert leds[..] == AllOffFrame(old(leds[..]));
      shown := shown + [leds[..]];
    }

    /** doSolidColors: pixel i - 1 (i = 1..NUM_LEDS) gets the palette entry that
        the running colorIndex reaches, which steps on (wrapping) whenever the
        group size divides i. */
    method DoSolidColors()
      requires Valid()
      modifies leds, this`shown
      ensures Valid()
      ensures Rendered(SolidColors, old(leds[..]), lastColor, lastChange, old(shown), 0, 0)
    {
      var largeGroupSize := NUM_LEDS / actionColorsSize;
      var smallGroupSize := if largeGroupSize % actionColorsSize == 0
        then largeGroupSize / actionColorsSize
        else largeGroupSize / actionColorsSize + 1;
      assert smallGroupSize == GroupSize(actionColorsSize);
      GroupSizeValues(actionColorsSize);
      ghost var palette := Palette();
      var colorIndex := 0;
      var i := 1;
      while i <= NUM_LEDS
        invariant 1 <= i <= NUM_LEDS + 1
        invariant colorIndex == ((i - 1) / smallGroupSize) % actionColorsSize
        invariant forall k :: 0 <= k < i - 1 ==> leds[k] == palette[SolidColorIndex(k + 1, actionColorsSize)]
        modifies leds
      {
        SolidIndexStep(i, actionColorsSize, colorIndex);
        colorIndex := if i % smallGroupSize == 0
          then (if colorIndex < actionColorsSize - 1 then colorIndex + 1 else 0)
          else colorIndex;
        leds[i - 1] := actionColors[colorIndex];
        i := i + 1;
      }
      assert Palette() == palette;
      assert leds[..] == SolidFrame(palette);
      shown := shown + [leds[..]];
    }

    /** Calls the routine a names. */
    method Run(a: Action, now: u32, later: u32)
      requires Valid()
      modifies leds, this`lastColor, this`lastChange, this`shown
      ensures Valid()
      ensures Rendered(a, old(leds[..]), old(lastColor), old(lastChange), old(shown), now, later)
    {
      match a
      case AllOff => DoAllOff();
      case FlashingColors => DoFlashingColors(now, later);
      case SolidColors => DoSolidColors();
    }
  }
}
