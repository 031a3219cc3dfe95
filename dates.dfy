/** The date normaliser `formatDate`: its branch structure is modelled, the
    calendar arithmetic and locale formatting are the host's. */
module Dates {
  import opened Wrappers
  import opened Cells

  /** Days between the spreadsheet epoch (30 December 1899) and the Unix epoch. */
  const SerialEpochOffset: real := 25569.0
  const MillisPerDay: real := 86400.0 * 1000.0

  /** The time value `(value - 25569) * 86400 * 1000` of a serial date. */
  function SerialToTime(serial: real): (t: real)
    ensures serial == SerialEpochOffset ==> t == 0.0
    ensures serial > SerialEpochOffset ==> t > 0.0
  {
    (serial - SerialEpochOffset) * MillisPerDay
  }

  /** formatDate(value). A falsy value gives the empty string, a number is a
      serial date, a boolean true is the time value 1, a string is parsed as
      a date and is returned unchanged when it does not parse. The result is
      always a string. */
  function FormatDate(value: Cell, host: Host): (r: Cell)
    ensures r.Str?
    ensures IsFalsy(value) ==> r == Str("")
    ensures value.Num? && value.n != 0.0 ==> r == Str(host.formatTime(SerialToTime(value.n)))
    ensures value.Str? && value.s != "" && host.parseDate(value.s).None? ==> r == value
    ensures value.Str? && value.s != "" && host.parseDate(value.s).Some? ==>
              r == Str(host.formatTime(host.parseDate(value.s).value))
  {
    if IsFalsy(value) then Str("")
    else match value
      case Num(n) => Str(host.formatTime(SerialToTime(n)))
      case Bool(_) => Str(host.formatTime(1.0))
      case Str(s) =>
        match host.parseDate(s)
        case Some(t) => Str(host.formatTime(t))
        case None => value
  }
}
