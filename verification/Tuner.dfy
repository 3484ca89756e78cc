/** The horizontal half of usr/X386/tuner/tuner.c, over exact reals. */
module Tuner {
  import opened Bits

  /** Conversion of a floating-point value to int: towards zero. */
  function ToInt(x: real): int {
    if x >= 0.0 then x.Floor else -((-x).Floor)
  }

  /** It loses less than 1, and never changes the sign. */
  lemma ToIntTruncates(x: real)
    ensures x >= 0.0 ==> ToInt(x) >= 0 && ToInt(x) as real <= x < ToInt(x) as real + 1.0
    ensures x < 0.0 ==> ToInt(x) <= 0 && ToInt(x) as real - 1.0 < x <= ToInt(x) as real
  {
    var y := -x;
    assert y.Floor as real <= y < y.Floor as real + 1.0;
  }

  function RoundTo8(x: int): int { AndNot(x, 7) }

  lemma RoundTo8Is(x: int)
    ensures RoundTo8(x) == x - x % 8 && RoundTo8(x) % 8 == 0
  {
    assert Pow2(3) == 8;
    MaskIsModulus(x, 3);
    RoundDown(x, 8);
  }

  lemma RoundTo8Multiple(x: int)
    requires x % 8 == 0
    ensures RoundTo8(x) == x
  {
    RoundTo8Is(x);
  }

  lemma ThirdRounded(m: int, j: int)
    requires m >= 0 && 0 <= j < 3
    ensures ToInt(0.5 + (24 * m + 8 * j) as real / 3.0) == 8 * m + if j == 0 then 0 else if j == 1 then 3 else 5
  {
    var x := 0.5 + (24 * m + 8 * j) as real / 3.0;
    var rest := 0.5 + (8 * j) as real / 3.0;
    assert x == (8 * m) as real + rest;
  }

  lemma FrontPorchIs(m: int, j: int)
    requires m >= 0 && 0 <= j < 3
    ensures RoundTo8(ToInt(0.5 + (24 * m + 8 * j) as real / 3.0)) == 8 * m
  {
    ThirdRounded(m, j);
    var c := if j == 0 then 0 else if j == 1 then 3 else 5;
    RoundTo8Is(8 * m + c);
    DivModUnique(8 * m + c, 8, m, c);
  }

  lemma FrontPorchNegative(spare: int)
    requires spare <= -8
    ensures var front := RoundTo8(ToInt(0.5 + spare as real / 3.0));
            front % 8 == 0 && front < 8
  {
    var x := 0.5 + spare as real / 3.0;
    assert x < 0.0;
    RoundTo8Is(ToInt(x));
  }

  /** The front porch that the program tries first: a third of the spare time,
      rounded to the nearest, then down to a multiple of 8. It is too small
      exactly when the spare time is, and else it leaves the back porch twice as
      much and at most 16 more. */
  lemma FrontPorchOf(spare: int)
    requires spare % 8 == 0
    ensures var front := RoundTo8(ToInt(0.5 + spare as real / 3.0));
            && front % 8 == 0
            && (front < 8 <==> spare < 24)
            && (spare >= 24 ==> spare - 3 * front in {0, 8, 16})
  {
    if spare >= 0 {
      var m, j := spare / 24, spare % 24 / 8;
      assert spare == 24 * m + 8 * j;
      FrontPorchIs(m, j);
    } else {
      FrontPorchNegative(spare);
    }
  }

  /** Where `main` puts the sync pulse of a line. */
  method PlacePulse(estimate: int, hSyncLength: int, wanted: int)
    returns (hDots: int, hSyncStart: int, hSyncEnd: int, hFrame: int, maxHDot: int, enlarged: bool)
    requires estimate % 8 == 0 && hSyncLength % 8 == 0
    ensures hDots % 8 == 0 && hSyncStart % 8 == 0 && hSyncEnd % 8 == 0 && hFrame % 8 == 0 && maxHDot % 8 == 0
    ensures hDots <= wanted < hDots + 8
    ensures hSyncEnd - hSyncStart == hSyncLength
    ensures var front, back := hSyncStart - hDots, hFrame - hSyncEnd;
            front >= 8 && back >= 16 && back - 2 * front in {0, 8, 16}
    ensures enlarged <==> hDots > maxHDot
    ensures maxHDot == estimate - hSyncLength - 24
    ensures hFrame == if enlarged then hSyncEnd + 16 else estimate
    ensures enlarged ==> hSyncStart == hDots + 8
  {
    hFrame := estimate;
    maxHDot := hFrame - hSyncLength - 24;
    RoundTo8Is(wanted);
    hDots := RoundTo8(wanted);
    var spare := hFrame - hSyncLength - hDots;
    SumOfMultiples(hFrame, hSyncLength, 8);
    SumOfMultiples(hFrame - hSyncLength, 24, 8);
    SumOfMultiples(hFrame - hSyncLength, hDots, 8);
    FrontPorchOf(spare);
    var hFrontPorch := RoundTo8(ToInt(0.5 + spare as real / 3.0));
    enlarged := false;
    if hFrontPorch < 8 {
      hFrontPorch := 8;
      hFrame := hDots + 3 * hFrontPorch + hSyncLength;
      SumOfMultiples(hDots, 24, 8);
      SumOfMultiples(hDots + 24, hSyncLength, 8);
      enlarged := true;
    }
    SumOfMultiples(hDots, hFrontPorch, 8);
    RoundTo8Multiple(hDots + hFrontPorch);
    hSyncStart := RoundTo8(hDots + hFrontPorch);
    SumOfMultiples(hSyncStart, hSyncLength, 8);
    RoundTo8Multiple(hSyncStart + hSyncLength);
    hSyncEnd := RoundTo8(hSyncStart + hSyncLength);
  }

  /** The horizontal timing that `main` computes from the dot clock and the line
      frequency, in Hz, and the resolution that the user asks for. */
  method HorizontalTiming(clockFreq: real, monHFreq: real, wanted: int)
    returns (hDots: int, hSyncStart: int, hSyncEnd: int, hFrame: int, maxHDot: int, enlarged: bool)
    requires monHFreq != 0.0
    ensures hDots % 8 == 0 && hSyncStart % 8 == 0 && hSyncEnd % 8 == 0 && hFrame % 8 == 0 && maxHDot % 8 == 0
    ensures hDots <= wanted < hDots + 8
    ensures hSyncEnd - hSyncStart == RoundTo8(ToInt(0.5 + 0.0000038 * clockFreq))
    ensures var front, back := hSyncStart - hDots, hFrame - hSyncEnd;
            front >= 8 && back >= 16 && back - 2 * front in {0, 8, 16}
    ensures maxHDot ==
            RoundTo8(ToInt(0.5 + clockFreq / monHFreq)) - RoundTo8(ToInt(0.5 + 0.0000038 * clockFreq)) - 24
    ensures enlarged <==> hDots > maxHDot
    ensures !enlarged ==> hFrame == RoundTo8(ToInt(0.5 + clockFreq / monHFreq))
    ensures enlarged ==> hSyncStart - hDots == 8 && hFrame - hSyncEnd == 16
  {
    var dots := ToInt(0.5 + clockFreq / monHFreq);
    RoundTo8Is(dots);
    var pulse := ToInt(0.5 + 0.0000038 * clockFreq);
    RoundTo8Is(pulse);
    hDots, hSyncStart, hSyncEnd, hFrame, maxHDot, enlarged :=
      PlacePulse(RoundTo8(dots), RoundTo8(pulse), wanted);
  }
}
