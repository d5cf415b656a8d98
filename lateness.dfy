// The lateness rule of the punch handler: a clock-in punch recorded after
// 05:55 has a fixed marker appended to its label before it is stored.

module Lateness {
  import opened JsString

  /** Hour of the local time, as `Date.prototype.getHours` returns it. */
  type Hour = h: int | 0 <= h < 24

  /** Minute of the local time, as `Date.prototype.getMinutes` returns it. */
  type Minute = m: int | 0 <= m < 60

  /** The word whose presence in a label makes the punch a clock-in. */
  const ClockIn: string := "Entrada"

  /** The marker appended to a late clock-in: space, "(", the warning sign
      U+26A0 with emoji presentation selector U+FE0F, " ATRASO)". */
  const LateMarker: string := " (\U{26A0}\U{FE0F} ATRASO)"

  /** The last on-time minute of the day, 05:55, counted from midnight. */
  const CutoffMinuteOfDay: int := 5 * 60 + 55

  /** Minutes elapsed since local midnight. */
  function MinuteOfDay(hour: Hour, minute: Minute): (n: nat)
    ensures n < 24 * 60
  {
    hour * 60 + minute
  }

  /** The time test of the handler, on hours and minutes only. */
  predicate AfterCutoff(hour: Hour, minute: Minute)
  {
    hour > 5 || (hour == 5 && minute > 55)
  }

  /** The label stored for a punch of kind `kind` taken at `hour`:`minute`. */
  function FinalKind(kind: string, hour: Hour, minute: Minute): (r: string)
    ensures kind <= r
    ensures r == kind || r == kind + LateMarker
    ensures r != kind <==> Includes(kind, ClockIn) && MinuteOfDay(hour, minute) > CutoffMinuteOfDay
  {
    if Includes(kind, ClockIn) && AfterCutoff(hour, minute) then kind + LateMarker else kind
  }

  /** The marker is twelve UTF-16 code units long, as in JavaScript. */
  lemma LateMarkerLength()
    ensures |LateMarker| == 12 && Utf16Length(LateMarker) == 12
  {
  }

  /** The hour/minute test is the same as comparing minutes since midnight
      with 05:55, so lateness is monotone over the day. */
  lemma AfterCutoffIffPastCutoffMinute(hour: Hour, minute: Minute)
    ensures AfterCutoff(hour, minute) <==> MinuteOfDay(hour, minute) > CutoffMinuteOfDay
  {
  }

  /** Once a clock-in is late, every later time of the same day is late too. */
  lemma LatenessMonotone(kind: string, h1: Hour, m1: Minute, h2: Hour, m2: Minute)
    requires MinuteOfDay(h1, m1) <= MinuteOfDay(h2, m2)
    requires FinalKind(kind, h1, m1) != kind
    ensures FinalKind(kind, h2, m2) == kind + LateMarker
  {
  }

  /** A label that does not contain "Entrada" is stored unchanged at every time. */
  lemma NonClockInUnchanged(kind: string, hour: Hour, minute: Minute)
    requires !Includes(kind, ClockIn)
    ensures FinalKind(kind, hour, minute) == kind
  {
  }

  /** A clock-in at 05:55 or earlier is stored unchanged. */
  lemma OnTimeClockInUnchanged(kind: string, hour: Hour, minute: Minute)
    requires hour < 5 || (hour == 5 && minute <= 55)
    ensures FinalKind(kind, hour, minute) == kind
  {
  }

  /** A clock-in after 05:55 is stored with the marker appended exactly once. */
  lemma LateClockInMarked(kind: string, hour: Hour, minute: Minute)
    requires Includes(kind, ClockIn)
    requires hour > 5 || (hour == 5 && minute > 55)
    ensures FinalKind(kind, hour, minute) == kind + LateMarker
    ensures |FinalKind(kind, hour, minute)| == |kind| + 12
    ensures Utf16Length(FinalKind(kind, hour, minute)) == Utf16Length(kind) + 12
  {
    LateMarkerLength();
    Utf16LengthOfConcat(kind, LateMarker);
  }

  /** A stored late label still contains "Entrada", so classifying it a second
      time would append the marker again: the label is derived once, when the
      punch is inserted. */
  lemma MarkedLabelStillClockIn(kind: string, hour: Hour, minute: Minute)
    requires FinalKind(kind, hour, minute) != kind
    ensures Includes(FinalKind(kind, hour, minute), ClockIn)
    ensures FinalKind(FinalKind(kind, hour, minute), hour, minute) == kind + LateMarker + LateMarker
  {
    IncludesExtend(kind, LateMarker, ClockIn);
  }

  /** "Entrada" around the cutoff; seconds are not an input, so 05:55:59 is
      classified as 05:55 and is on time. */
  lemma CutoffScenarios()
    ensures FinalKind("Entrada", 0, 0) == "Entrada"
    ensures FinalKind("Entrada", 5, 55) == "Entrada"
    ensures FinalKind("Entrada", 5, 56) == "Entrada" + LateMarker
    ensures FinalKind("Entrada", 6, 0) == "Entrada" + LateMarker
    ensures FinalKind("Entrada", 23, 59) == "Entrada" + LateMarker
  {
    assert ClockIn <= "Entrada";
  }

  /** "Entrada" is found at the start of a longer label. */
  lemma PrefixLabelScenario()
    ensures FinalKind("Entrada Manhã", 6, 10) == "Entrada Manhã" + LateMarker
  {
    assert ClockIn <= "Entrada Manhã";
  }

  /** "Entrada" is found in the middle of a label, not only at its start. */
  lemma InnerLabelScenario()
    ensures FinalKind("Turno Entrada", 8, 30) == "Turno Entrada" + LateMarker
  {
    IncludesIffOccurs("Turno Entrada", ClockIn);
    assert "Turno Entrada" == "Turno " + ClockIn;
    assert "Turno Entrada"[6..13] == ClockIn;
    assert OccursAt("Turno Entrada", ClockIn, 6);
  }

  /** A clock-out is never marked, and the match is case-sensitive. */
  lemma UnmarkedLabelScenarios()
    ensures FinalKind("Saída", 23, 0) == "Saída"
    ensures FinalKind("entrada", 7, 0) == "entrada"
  {
    assert !Includes("entrada", ClockIn) by {
      assert "entrada"[0] != ClockIn[0];
    }
  }
}
