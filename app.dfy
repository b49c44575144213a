/**
 * The booking form: the list of booked days, the bounded forward search for
 * the first free day (`findBestDate`) and the decision taken when the form
 * is submitted (`handleSubmit`).
 */
module Booking {
  import opened Wrappers
  import opened CivilDates
  import opened IsoDates

  /** The days the demo treats as already booked. */
  const BookedDates: seq<CivilDate> := [Date(2025, 9, 5), Date(2025, 9, 6), Date(2025, 9, 8)]

  /** How many consecutive days the search inspects, the start day included. */
  const SearchDays: nat := 30

  /** The first day of `w`, in order, that is not booked; `None` for none. */
  function FirstFree(booked: seq<CivilDate>, w: seq<CivilDate>): Option<CivilDate> {
    if w == [] then None
    else if w[0] !in booked then Some(w[0])
    else FirstFree(booked, w[1..])
  }

  /**
   * The search's answer for a start day: the first free day among the
   * 30 days that begin at the start, or `None` for `null`.
   */
  function BestDate(booked: seq<CivilDate>, start: CivilDate): Option<CivilDate> {
    FirstFree(booked, Days(start, SearchDays))
  }

  /**
   * A day `FirstFree` returns is the free day at the least position `k` of
   * `w`: every day before position `k` is booked.
   */
  lemma {:induction false} FirstFreeFound(booked: seq<CivilDate>, w: seq<CivilDate>)
    ensures FirstFree(booked, w).Some? ==>
      exists k :: 0 <= k < |w| && FirstFree(booked, w).value == w[k] && w[k] !in booked &&
        forall j :: 0 <= j < k ==> w[j] in booked
  {
    if w != [] && w[0] in booked {
      FirstFreeFound(booked, w[1..]);
      if FirstFree(booked, w[1..]).Some? {
        var k :| 0 <= k < |w[1..]| && FirstFree(booked, w[1..]).value == w[1..][k] &&
          w[1..][k] !in booked && forall j :: 0 <= j < k ==> w[1..][j] in booked;
        assert forall j :: 0 <= j < k + 1 ==> w[j] in booked by {
          forall j | 0 < j < k + 1 ensures w[j] in booked {
            assert w[j] == w[1..][j - 1];
          }
        }
        assert w[k + 1] == w[1..][k];
      }
    }
  }

  /** `FirstFree` returns `None` exactly when every day of `w` is booked. */
  lemma {:induction false} FirstFreeNone(booked: seq<CivilDate>, w: seq<CivilDate>)
    ensures FirstFree(booked, w).None? ==> forall k :: 0 <= k < |w| ==> w[k] in booked
    ensures (forall k :: 0 <= k < |w| ==> w[k] in booked) ==> FirstFree(booked, w).None?
  {
    if w != [] && w[0] in booked {
      FirstFreeNone(booked, w[1..]);
      assert forall k :: 0 < k < |w| ==> w[k] == w[1..][k - 1];
    }
  }

  /** A day the search returns is not booked. */
  lemma BestDateIsFree(booked: seq<CivilDate>, start: CivilDate)
    ensures BestDate(booked, start).Some? ==> BestDate(booked, start).value !in booked
  {
    FirstFreeFound(booked, Days(start, SearchDays));
  }

  /**
   * A day the search returns is the `k`-th of the 30 days that begin at the
   * start, for some `k < 30` (the start itself for `k = 0`, at most 29 days
   * later), and each of the `k` days before it is booked.
   */
  lemma BestDateIsFirstInWindow(booked: seq<CivilDate>, start: CivilDate)
    ensures BestDate(booked, start).Some? ==>
      exists k :: 0 <= k < SearchDays && BestDate(booked, start).value == Days(start, SearchDays)[k] &&
        forall j :: 0 <= j < k ==> Days(start, SearchDays)[j] in booked
  {
    FirstFreeFound(booked, Days(start, SearchDays));
  }

  /**
   * The same in calendar order: a day the search returns is never before
   * the start, and every day from the start up to it is booked.
   */
  lemma BestDateIsEarliestFree(booked: seq<CivilDate>, start: CivilDate)
    ensures BestDate(booked, start).Some? ==>
      var e := BestDate(booked, start).value;
      !Before(e, start) &&
      forall c: CivilDate :: !Before(c, start) && Before(c, e) ==> c in booked
  {
    if BestDate(booked, start).Some? {
      var e := BestDate(booked, start).value;
      var w := Days(start, SearchDays);
      BestDateIsFirstInWindow(booked, start);
      var k :| 0 <= k < SearchDays && e == w[k] && forall j :: 0 <= j < k ==> w[j] in booked;
      if k > 0 {
        DaysAscending(start, SearchDays, 0, k);
      }
      forall c: CivilDate | !Before(c, start) && Before(c, e)
        ensures c in booked
      {
        DaysCover(start, SearchDays, k, c);
      }
    }
  }

  /** The search returns `null` exactly when all 30 days from the start are booked. */
  lemma BestDateNoneIffAllBooked(booked: seq<CivilDate>, start: CivilDate)
    ensures BestDate(booked, start).None? ==>
      forall k :: 0 <= k < SearchDays ==> Days(start, SearchDays)[k] in booked
    ensures (forall k :: 0 <= k < SearchDays ==> Days(start, SearchDays)[k] in booked) ==>
      BestDate(booked, start).None?
  {
    FirstFreeNone(booked, Days(start, SearchDays));
  }

  /** The search returns the start day itself exactly when that day is free. */
  lemma BestDateOfFreeStart(booked: seq<CivilDate>, start: CivilDate)
    ensures BestDate(booked, start) == Some(start) <==> start !in booked
  {
    BestDateIsFree(booked, start);
  }

  /** When the start day is booked, a day the search returns is strictly later. */
  lemma BestDateLaterWhenBooked(booked: seq<CivilDate>, start: CivilDate)
    ensures start in booked && BestDate(booked, start).Some? ==>
      Before(start, BestDate(booked, start).value)
  {
    if start in booked && BestDate(booked, start).Some? {
      var w := Days(start, SearchDays);
      BestDateIsFirstInWindow(booked, start);
      var k :| 0 <= k < SearchDays && BestDate(booked, start).value == w[k] &&
        forall j :: 0 <= j < k ==> w[j] in booked;
      BestDateIsFree(booked, start);
      DaysAscending(start, SearchDays, 0, k);
    }
  }

  /** With the demo's booked days, a search from 2025-09-05 answers 2025-09-07. */
  lemma BestDateExample()
    ensures BestDate(BookedDates, Date(2025, 9, 5)) == Some(Date(2025, 9, 7))
  {
    var w := Days(Date(2025, 9, 5), SearchDays);
    assert w[1] == Date(2025, 9, 6);
    assert w[2] == Date(2025, 9, 7);
    assert w[2..][0] == Date(2025, 9, 7);
    assert FirstFree(BookedDates, w[1..]) == FirstFree(BookedDates, w[1..][1..]);
    assert w[1..][1..] == w[2..];
  }

  /** The demo's booked days are the texts 2025-09-05, 2025-09-06 and 2025-09-08. */
  lemma BookedDatesText()
    ensures FormatAll(BookedDates) == ["2025-09-05", "2025-09-06", "2025-09-08"]
  {
    assert FourDigits(2025) == "2025" by {
      assert TwoDigits(20) == "20" && TwoDigits(25) == "25";
    }
    assert TwoDigits(9) == "09";
    assert TwoDigits(5) == "05" && TwoDigits(6) == "06" && TwoDigits(8) == "08";
    assert Format(BookedDates[0]) == "2025-09-05";
    assert Format(BookedDates[1]) == "2025-09-06";
    assert Format(BookedDates[2]) == "2025-09-08";
  }

  /**
   * The forward scan: starting at `date`, look at one day after another for
   * at most 30 days and return the first one that is not booked. The booked
   * list is only read.
   */
  method FindBestDate(booked: seq<CivilDate>, date: CivilDate) returns (r: Option<CivilDate>)
    ensures r == BestDate(booked, date)
  {
    ghost var window := Days(date, SearchDays);
    var newDate := date;
    for i := 0 to SearchDays
      invariant i < SearchDays ==> newDate == window[i]
      invariant FirstFree(booked, window[i..]) == BestDate(booked, date)
    {
      if newDate !in booked {
        return Some(newDate);
      }
      assert window[i..][1..] == window[i + 1..];
      newDate := NextDay(newDate);
    }
    return None;
  }

  /** Which message the form shows. */
  datatype Message =
    | NoMessage                  // nothing submitted yet
    | SelectPrompt               // submitted without a selected day
    | Confirmed                  // the selected day is free and is confirmed
    | Occupied(best: CivilDate)  // the selected day is booked; `best` is offered instead
    | NoneAvailable              // booked, and nothing is free in the next 30 days

  /** The state of the booking form component. */
  class App {
    const booked: seq<CivilDate>
    var selectedDate: Option<CivilDate>
    var suggestedDate: Option<CivilDate>
    var message: Message

    /**
     * A suggested day is always free, a confirmation always has a
     * suggestion, and an offered day is the suggestion.
     */
    ghost predicate Valid()
      reads this
    {
      (suggestedDate.Some? ==> suggestedDate.value !in booked) &&
      (message.Confirmed? ==> suggestedDate.Some?) &&
      (message.Occupied? ==> suggestedDate == Some(message.best))
    }

    /** Initial state: nothing selected, nothing suggested, no message. */
    constructor(booked: seq<CivilDate>)
      ensures Valid()
      ensures this.booked == booked
      ensures selectedDate == None && suggestedDate == None && message == NoMessage
    {
      this.booked := booked;
      selectedDate := None;
      suggestedDate := None;
      message := NoMessage;
    }

    /** The selected-date setter; `None` is the empty input. */
    method Select(date: Option<CivilDate>)
      requires Valid()
      modifies this`selectedDate
      ensures Valid()
      ensures selectedDate == date
    {
      selectedDate := date;
    }

    /**
     * Submitting the form. Without a selection only the message changes.
     * A free selection becomes the suggestion. A booked selection is
     * replaced by the search's answer, which is strictly later; when the
     * search finds nothing only the message changes.
     */
    method HandleSubmit()
      requires Valid()
      modifies this`suggestedDate, this`message
      ensures Valid()
      ensures selectedDate.None? ==>
        message == SelectPrompt && suggestedDate == old(suggestedDate)
      ensures selectedDate.Some? && selectedDate.value !in booked ==>
        message == Confirmed && suggestedDate == selectedDate
      ensures selectedDate.Some? && selectedDate.value in booked ==>
        match BestDate(booked, selectedDate.value)
        case Some(best) =>
          message == Occupied(best) && suggestedDate == Some(best) &&
          Before(selectedDate.value, best)
        case None =>
          message == NoneAvailable && suggestedDate == old(suggestedDate)
    {
      if selectedDate.None? {
        message := SelectPrompt;
        return;
      }
      var selected := selectedDate.value;
      if selected !in booked {
        suggestedDate := Some(selected);
        message := Confirmed;
      } else {
        var bestDate := FindBestDate(booked, selected);
        if bestDate.Some? {
          BestDateIsFree(booked, selected);
          BestDateLaterWhenBooked(booked, selected);
          suggestedDate := bestDate;
          message := Occupied(bestDate.value);
        } else {
          message := NoneAvailable;
        }
      }
    }
  }

  /** A session with the demo's booked days: 2025-09-05 is booked, 2025-09-07 is offered. */
  method Session() {
    var app := new App(BookedDates);
    app.Select(Some(Date(2025, 9, 5)));
    BestDateExample();
    app.HandleSubmit();
    assert app.suggestedDate == Some(Date(2025, 9, 7));
    assert app.message == Occupied(Date(2025, 9, 7));
    app.Select(Some(Date(2025, 9, 7)));
    app.HandleSubmit();
    assert app.message == Confirmed;
    app.Select(None);
    app.HandleSubmit();
    assert app.message == SelectPrompt && app.suggestedDate == Some(Date(2025, 9, 7));
  }
}
