/**
  The catalog of src/data.ts: the ClockTime and Generator records and the
  generators constant, with its well-formedness checked by evaluation.
  Only the fields the scheduling logic reads are kept.
 */
module Data {
  import opened WallClock
  import opened Text

  /** A daily wall-clock time. */
  datatype ClockTime = ClockTime(hours: int, minutes: int)

  /** The clock times of one generator; an entry without any has no next
      occurrence, so the list is never empty. */
  type ClockList = s: seq<ClockTime> | |s| > 0 witness [ClockTime(0, 0)]

  /** A catalog entry: its name (the list key when rendering), the times at
      which it works and the label shown for them. */
  datatype Generator = Generator(name: string, clockTimes: ClockList, canonicalTime: string)

  /** Array.from({length: 23}, (_, i) => ({hours: i, minutes: 11})). */
  function DialAFishTimes(): seq<ClockTime> {
    seq(23, i => ClockTime(i, 11))
  }

  const GENERATORS: seq<Generator> := [
    Generator("make a fish", [ClockTime(11, 11), ClockTime(23, 11)], "11:11"),
    Generator("fish.lftq.in", [ClockTime(11, 11), ClockTime(23, 11)], "11:11"),
    Generator("bake a dish", [ClockTime(22, 22)], "22:22"),
    Generator("ssh a fissh", [ClockTime(11, 11), ClockTime(23, 11)], "11:11"),
    Generator("X11:11 make a fish", [ClockTime(11, 11), ClockTime(23, 11)], "11:11"),
    Generator("2:55 make a byte", [ClockTime(2, 55), ClockTime(14, 55)], "02:55"),
    Generator("dial-a-fish", DialAFishTimes(), "**:11")
  ]

  /** The label "HH:MM" of a clock time, both fields zero-padded to two digits. */
  function Label(t: ClockTime): string {
    PadTwo(t.hours) + ":" + PadTwo(t.minutes)
  }

  predicate ValidClockTime(t: ClockTime) {
    ValidTime(t.hours, t.minutes)
  }

  /** Two times with the same minute, the second exactly twelve hours after
      the first. */
  predicate TwiceDaily(times: seq<ClockTime>) {
    |times| == 2 && times[0].minutes == times[1].minutes && times[1].hours == times[0].hours + 12
  }

  /** The dial-a-fish list has 23 entries, the i-th is i:11, so 23:11 is
      not among them. */
  lemma DialAFishList()
    ensures |DialAFishTimes()| == 23
    ensures forall i :: 0 <= i < 23 ==> DialAFishTimes()[i] == ClockTime(i, 11)
    ensures ClockTime(23, 11) !in DialAFishTimes()
    ensures forall t :: t in DialAFishTimes() ==> 0 <= t.hours <= 22 && t.minutes == 11
  {
  }

  /** Every clock time in the catalog is a valid wall-clock time. */
  lemma CatalogTimesValid()
    ensures forall g, t :: g in GENERATORS && t in g.clockTimes ==> ValidClockTime(t)
  {
    DialAFishList();
  }

  /** Every catalog entry has at least one clock time. */
  lemma CatalogTimesNonEmpty()
    ensures forall i :: 0 <= i < |GENERATORS| ==> |GENERATORS[i].clockTimes| >= 1
  {
  }

  /** Generator names are pairwise distinct, so they can serve as keys. */
  lemma CatalogNamesDistinct()
    ensures forall i, j :: 0 <= i < j < |GENERATORS| ==> GENERATORS[i].name != GENERATORS[j].name
  {
  }

  /** Every entry with two clock times lists them twelve hours apart with the
      same minute; only bake a dish and dial-a-fish are not twice daily. */
  lemma CatalogTwiceDaily()
    ensures forall i :: 0 <= i < |GENERATORS| && |GENERATORS[i].clockTimes| == 2 ==>
              TwiceDaily(GENERATORS[i].clockTimes)
    ensures forall i :: 0 <= i < |GENERATORS| ==>
              (TwiceDaily(GENERATORS[i].clockTimes) <==> i != 2 && i != 6)
  {
    DialAFishList();
    assert !TwiceDaily(GENERATORS[6].clockTimes);
  }

  lemma LabelsUsed()
    ensures Label(ClockTime(11, 11)) == "11:11"
    ensures Label(ClockTime(22, 22)) == "22:22"
    ensures Label(ClockTime(2, 55)) == "02:55"
  {
    assert PadTwo(11) == "11" && PadTwo(22) == "22";
    assert PadTwo(2) == "02" && PadTwo(55) == "55";
  }

  /** The label of every entry but the last, dial-a-fish, is its first clock
      time as zero-padded HH:MM; dial-a-fish shows "**:11". */
  lemma CatalogLabels()
    ensures forall i :: 0 <= i < 6 ==> GENERATORS[i].canonicalTime == Label(GENERATORS[i].clockTimes[0])
    ensures |GENERATORS| == 7 && GENERATORS[6].name == "dial-a-fish" && GENERATORS[6].canonicalTime == "**:11"
  {
    LabelsUsed();
    forall i | 0 <= i < 6
      ensures GENERATORS[i].canonicalTime == Label(GENERATORS[i].clockTimes[0])
    {
      var g := GENERATORS[i];
      if i == 2 {
        assert g.clockTimes[0] == ClockTime(22, 22) && g.canonicalTime == "22:22";
      } else if i == 5 {
        assert g.clockTimes[0] == ClockTime(2, 55) && g.canonicalTime == "02:55";
      } else {
        assert g.clockTimes[0] == ClockTime(11, 11) && g.canonicalTime == "11:11";
      }
    }
  }
}
