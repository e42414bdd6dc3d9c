/**
 * The reminder text of `getNotificationMessage`: how many whole hours a task is
 * overdue or has left, with "hour"/"hours" chosen by the number, and its priority.
 */
module Messages {
  import opened Text
  import opened Tasks
  import opened Deadlines

  /** What the reminder says about the deadline. */
  datatype Notice =
    | OverdueBy(hours: nat)   // "Overdue by N hour(s)!"
    | UnderAnHour             // "Due in less than 1 hour!"
    | DueInHours(hours: nat)  // "Due in N hour(s)."
    | DueOn                   // "Due <formatted date>."

  /**
   * The notice for a task due at `due` seen at `now`. An overdue task reports the hours
   * rounded up (one millisecond late is "1 hour"); a task due in more than an hour reports
   * the whole hours left, rounded down, which is at most 24 within the day.
   */
  function NoticeFor(due: int, now: int): (n: Notice)
    ensures n.OverdueBy? <==> due < now
    ensures n.OverdueBy? ==> n.hours >= 1 && (n.hours - 1) * HOUR_MS < now - due <= n.hours * HOUR_MS
    ensures n.UnderAnHour? <==> 0 <= due - now <= HOUR_MS
    ensures n.DueInHours? <==> HOUR_MS < due - now <= DAY_MS
    ensures n.DueInHours? ==> 1 <= n.hours <= 24 && n.hours * HOUR_MS <= due - now < (n.hours + 1) * HOUR_MS
    ensures n.DueOn? <==> due - now > DAY_MS
  {
    var d := due - now;
    // Math.floor(d / HOUR_MS): Dafny's division by a positive divisor rounds down, as floor does.
    if d < 0 then OverdueBy(Abs(d / HOUR_MS))
    else if d <= HOUR_MS then UnderAnHour
    else if d <= DAY_MS then DueInHours(d / HOUR_MS)
    else DueOn
  }

  function DigitChar(d: nat): (c: char)
    requires d < 10
  {
    "0123456789"[d]
  }

  function DigitValue(c: char): int {
    c as int - '0' as int
  }

  /** The decimal digits of `n`, as a template literal prints a whole number. */
  function NatToString(n: nat): (s: string)
    ensures s != []
    ensures forall i :: 0 <= i < |s| ==> '0' <= s[i] <= '9'
    ensures s[0] == '0' ==> n == 0
  {
    if n < 10 then [DigitChar(n)] else NatToString(n / 10) + [DigitChar(n % 10)]
  }

  /** The number a string of decimal digits stands for. */
  function ValueOf(s: string): int {
    if s == [] then 0 else ValueOf(s[..|s| - 1]) * 10 + DigitValue(s[|s| - 1])
  }

  /** Printing a number and reading it back gives the number. */
  lemma {:induction false} NatToStringValue(n: nat)
    ensures ValueOf(NatToString(n)) == n
  {
    var s := NatToString(n);
    if n < 10 {
      DigitRoundTrip(n);
      assert s[..0] == [];
    } else {
      NatToStringValue(n / 10);
      DigitRoundTrip(n % 10);
      assert s[..|s| - 1] == NatToString(n / 10);
      assert s[|s| - 1] == DigitChar(n % 10);
    }
  }

  lemma DigitRoundTrip(d: nat)
    requires d < 10
    ensures DigitValue(DigitChar(d)) == d
  {
  }

  /** "N hour" or "N hours": the number, the unit, and the plural unless N is exactly 1. */
  function HoursPhrase(h: nat): (r: string)
    ensures |r| == |NatToString(h)| + 5 + (if h != 1 then 1 else 0)
    ensures StartsWith(r, NatToString(h))
    ensures r[|NatToString(h)|..|NatToString(h)| + 5] == " hour"
    ensures r[|r| - 1] == 's' <==> h != 1
  {
    var digits := NatToString(h);
    var r := digits + " hour" + (if h != 1 then "s" else "");
    assert r[..|digits|] == digits;
    assert r[|digits|..|digits| + 5] == " hour";
    r
  }

  /** The opening sentence of a reminder, carrying the hour count where there is one. */
  function Lead(n: Notice, dueText: string): (s: string)
    ensures n.OverdueBy? ==> StartsWith(s, "Overdue by " + HoursPhrase(n.hours))
    ensures n.UnderAnHour? ==> StartsWith(s, "Due in less than 1 hour! ")
    ensures n.DueInHours? ==> StartsWith(s, "Due in " + HoursPhrase(n.hours))
    ensures n.DueOn? ==> StartsWith(s, "Due " + dueText)
    ensures !n.OverdueBy? ==> s != [] && s[0] == 'D'
  {
    match n
    case OverdueBy(h) =>
      var head := "Overdue by " + HoursPhrase(h);
      var s := head + "! ";
      assert s[..|head|] == head;
      s
    case UnderAnHour => "Due in less than 1 hour! "
    case DueInHours(h) =>
      var head := "Due in " + HoursPhrase(h);
      var s := head + ". ";
      assert s[..|head|] == head;
      s
    case DueOn =>
      var head := "Due " + dueText;
      var s := head + ". ";
      assert s[..|head|] == head;
      s
  }

  /** A prefix of a prefix is a prefix. */
  lemma StartsWithTrans(a: string, b: string, c: string)
    requires StartsWith(a, b) && StartsWith(b, c)
    ensures StartsWith(a, c)
  {
    assert a[..|c|] == a[..|b|][..|c|];
  }

  /** `t` is a suffix of `s`. */
  predicate EndsWith(s: string, t: string) {
    |t| <= |s| && s[|s| - |t|..] == t
  }

  /** A suffix of a suffix is a suffix. */
  lemma EndsWithTrans(a: string, b: string, c: string)
    requires EndsWith(a, b) && EndsWith(b, c)
    ensures EndsWith(a, c)
  {
    assert a[|a| - |c|..] == a[|a| - |b|..][|b| - |c|..];
  }

  /** The closing sentence of every reminder: "Priority: " and the displayed priority. */
  function PriorityLine(p: Priority): (s: string)
    ensures StartsWith(s, "Priority: ")
    ensures EndsWith(s, PriorityText(p)) && |s| == |PriorityText(p)| + 10
  {
    var s := "Priority: " + PriorityText(p);
    assert s[..10] == "Priority: ";
    assert s[|s| - |PriorityText(p)|..] == PriorityText(p);
    s
  }

  /**
   * The reminder's body. `dueText` stands for the locale-formatted due date, used only
   * when the deadline is more than a day away. The message opens with the sentence of
   * `Lead` and closes with `PriorityLine`.
   */
  function NoticeText(n: Notice, p: Priority, dueText: string): (r: string)
    ensures StartsWith(r, Lead(n, dueText))
    ensures StartsWith(r, "Overdue by ") <==> n.OverdueBy?
    ensures EndsWith(r, PriorityLine(p))
  {
    var lead := Lead(n, dueText);
    var tail := PriorityLine(p);
    var r := lead + tail;
    assert r[..|lead|] == lead;
    assert r[|lead|..] == tail;
    assert n.OverdueBy? ==> StartsWith(r, "Overdue by ") by {
      if n.OverdueBy? {
        var q := "Overdue by " + HoursPhrase(n.hours);
        assert q[..11] == "Overdue by ";
        StartsWithTrans(r, lead, q);
        StartsWithTrans(r, q, "Overdue by ");
      }
    }
    assert !n.OverdueBy? ==> r[0] == 'D' by {
      if !n.OverdueBy? { assert r[0] == lead[0]; }
    }
    r
  }

  /** Every reminder opens with its hour count, or with the wording for its case. */
  lemma NoticeTextWording(n: Notice, p: Priority, dueText: string)
    ensures var r := NoticeText(n, p, dueText);
      && (n.OverdueBy? ==> StartsWith(r, "Overdue by " + HoursPhrase(n.hours)))
      && (n.UnderAnHour? ==> StartsWith(r, "Due in less than 1 hour! "))
      && (n.DueInHours? ==> StartsWith(r, "Due in " + HoursPhrase(n.hours)))
      && (n.DueOn? ==> StartsWith(r, "Due " + dueText))
  {
    var r := NoticeText(n, p, dueText);
    var lead := Lead(n, dueText);
    match n
    case OverdueBy(h) => StartsWithTrans(r, lead, "Overdue by " + HoursPhrase(h));
    case UnderAnHour => StartsWithTrans(r, lead, "Due in less than 1 hour! ");
    case DueInHours(h) => StartsWithTrans(r, lead, "Due in " + HoursPhrase(h));
    case DueOn => StartsWithTrans(r, lead, "Due " + dueText);
  }

  /** `getNotificationMessage` for a task with a due date. */
  function NotificationMessage(t: Task, now: int, dueText: string): (r: string)
    requires t.due.Some?
    ensures StartsWith(r, "Overdue by ") <==> t.due.value < now
    ensures t.due.value < now ==>
      StartsWith(r, "Overdue by " + HoursPhrase(NoticeFor(t.due.value, now).hours))
    ensures 0 <= t.due.value - now <= HOUR_MS ==> StartsWith(r, "Due in less than 1 hour! ")
    ensures HOUR_MS < t.due.value - now <= DAY_MS ==>
      StartsWith(r, "Due in " + HoursPhrase(NoticeFor(t.due.value, now).hours))
    ensures t.due.value - now > DAY_MS ==> StartsWith(r, "Due " + dueText)
    ensures EndsWith(r, PriorityLine(t.priority))
    ensures EndsWith(r, PriorityText(t.priority))
  {
    var p := t.priority;
    var n := NoticeFor(t.due.value, now);
    NoticeTextWording(n, p, dueText);
    EndsWithTrans(NoticeText(n, p, dueText), PriorityLine(p), PriorityText(p));
    NoticeText(n, p, dueText)
  }
}
