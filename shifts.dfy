/**
 * The shift-search response and the normalisation `keepScraping` applies
 * to it: each raw shift becomes a flat listing with its place names and
 * its start and end times of day.
 */
module Shifts {
  import opened Wrappers
  import opened JsText

  /** A `Location` or `Ward` object of the response; only its `Name` is used. */
  datatype Place = Place(name: string)

  datatype RawShift = RawShift(
    shiftDate: string,
    location: Place,
    ward: Place,
    startTime: string,
    endTime: string,
    notes: seq<string>)

  /** The response of the shift search: `Shifts` is absent (or null) or an array. */
  datatype Response = Response(shifts: Option<seq<RawShift>>)

  datatype Shift = Shift(
    shiftDate: string,
    location: string,
    ward: string,
    startTime: string,
    endTime: string,
    notes: seq<string>)

  /**
   * `t.split('T')[1].slice(0, 5)`. Without a 'T' the second piece is
   * undefined and JavaScript throws a TypeError: None.
   */
  function TimeOfDay(t: string): (r: Option<string>)
    ensures r.None? <==> 'T' !in t
    ensures r.Some? ==>
      var after := t[IndexOf(t, 'T') + 1..];
      && |r.value| <= 5 && r.value <= after && 'T' !in r.value
      && (|r.value| == 5 || |r.value| == |after| || after[|r.value|] == 'T')
  {
    SplitHasSecondPiece(t, 'T');
    var parts := Split(t, 'T');
    if |parts| < 2 then None
    else
      SecondPiece(t);
      Some(Prefix(parts[1], 5))
  }

  lemma SecondPiece(t: string)
    requires |Split(t, 'T')| >= 2
    ensures var after := t[IndexOf(t, 'T') + 1..];
      var p := Split(t, 'T')[1];
      p <= after && 'T' !in p && (|p| == |after| || after[|p|] == 'T')
  {
    SplitHasSecondPiece(t, 'T');
    SplitPieces(t, 'T');
    FirstPiece(t[IndexOf(t, 'T') + 1..], 'T');
  }

  /** A timestamp `date` + "T" + `rest` yields the start of `rest`, up to its next 'T'. */
  lemma TimeOfDayAfter(date: string, rest: string)
    requires 'T' !in date
    ensures TimeOfDay(date + "T" + rest) == Some(Prefix(Split(rest, 'T')[0], 5))
  {
    var t := date + "T" + rest;
    assert t[..|date|] == date && t[|date|] == 'T';
    assert IndexOf(t, 'T') == |date|;
    assert t[|date| + 1..] == rest;
    SplitPieces(t, 'T');
  }

  /**
   * For a timestamp such as "2024-05-01T09:00:00Z" (a date without 'T',
   * then 'T', then the clock time) the result is the "HH:MM" after the 'T'.
   */
  lemma IsoTimeOfDay(date: string, hhmm: string, rest: string)
    requires 'T' !in date && 'T' !in hhmm && |hhmm| == 5
    ensures TimeOfDay(date + "T" + hhmm + rest) == Some(hhmm)
  {
    assert date + "T" + hhmm + rest == date + "T" + (hhmm + rest);
    TimeOfDayAfter(date, hhmm + rest);
    FirstPiece(hhmm + rest, 'T');
    var p := Split(hhmm + rest, 'T')[0];
    assert p[..5] == (hhmm + rest)[..5] == hhmm;
    assert Prefix(p, 5) == hhmm;
  }

  /** One element of `Shifts.map(...)`; None where the mapping throws. */
  function NormaliseShift(s: RawShift): (r: Option<Shift>)
    ensures r.Some? <==> 'T' in s.startTime && 'T' in s.endTime
    ensures r.Some? ==>
      && r.value.shiftDate == s.shiftDate && r.value.notes == s.notes
      && r.value.location == s.location.name && r.value.ward == s.ward.name
      && Some(r.value.startTime) == TimeOfDay(s.startTime)
      && Some(r.value.endTime) == TimeOfDay(s.endTime)
  {
    match (TimeOfDay(s.startTime), TimeOfDay(s.endTime))
    case (Some(start), Some(end)) =>
      Some(Shift(s.shiftDate, s.location.name, s.ward.name, start, end, s.notes))
    case _ => None
  }

  /**
   * `Shifts.map(...)`: succeeds exactly when every shift can be normalised,
   * and then keeps the number and order of the shifts.
   */
  function Normalise(raw: seq<RawShift>): (r: Option<seq<Shift>>)
    ensures r.Some? <==> forall k :: 0 <= k < |raw| ==> NormaliseShift(raw[k]).Some?
    ensures r.Some? ==> |r.value| == |raw|
    ensures r.Some? ==> forall k :: 0 <= k < |raw| ==> NormaliseShift(raw[k]) == Some(r.value[k])
  {
    if raw == [] then Some([])
    else
      match (NormaliseShift(raw[0]), Normalise(raw[1..]))
      case (Some(first), Some(rest)) =>
        assert forall k :: 1 <= k < |raw| ==> raw[k] == raw[1..][k - 1];
        Some([first] + rest)
      case (None, _) => None
      case (_, None) =>
        assert exists k :: 0 <= k < |raw[1..]| && NormaliseShift(raw[1..][k]).None?;
        None
  }
}
