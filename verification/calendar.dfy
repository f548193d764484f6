/**
 * Abstract calendar. The browser clock is never read: the caller supplies the
 * current day number, the day of the week and the hour of the day.
 *
 * A `Day` is a day number such that `d + 1` is the calendar day after `d`; the
 * order of day numbers is the chronological order of their `YYYY-MM-DD` keys.
 */
module Calendar {

  type Day = int

  /** Day of the week as `Date.getDay` reports it: 0 is Sunday, 1 Monday, ..., 6 Saturday. */
  type Weekday = w: int | 0 <= w <= 6

  /** Hour of the day as `Date.getHours` reports it. */
  type Hour = h: int | 0 <= h <= 23

  /** One reading of the clock, taken when a session completes. */
  datatype Now = Now(today: Day, weekday: Weekday, hour: Hour)

  /**
   * How many days to add to today to reach the Monday that starts the
   * current week: six days back on a Sunday, `1 - weekday` otherwise.
   */
  function MondayOffset(weekday: Weekday): (r: int)
    ensures -6 <= r <= 0
    ensures r == -((weekday + 6) % 7)
    ensures (weekday + r) % 7 == 1
  {
    if weekday == 0 then -6 else 1 - weekday
  }

  /** First day (a Monday) of the Monday-to-Sunday week that contains `today`. */
  function WeekStart(today: Day, weekday: Weekday): (r: Day)
    ensures r <= today < r + 7
    ensures today - r == (weekday + 6) % 7
  {
    today + MondayOffset(weekday)
  }
}
