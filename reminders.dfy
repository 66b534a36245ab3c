/**
 * The `send_reminders` management command
 * (booking_api/management/commands/send_reminders.py): it selects the
 * confirmed appointments whose start falls in a one-minute window a fixed
 * number of hours ahead and whose reminder flag is still false, sends each
 * client a reminder, and sets the flag where the send reports success.
 *
 * The appointment table is an array updated in place, in the order the
 * query yields the rows. The outcome of each Telegram send is an input:
 * `delivered` holds the ids of the appointments whose send returns True.
 */
module Reminders {
  import opened Wrappers
  import opened Models

  const DefaultOffsetHours := 24
  const WindowSeconds := 60

  /** `now + timedelta(hours=offset)`, the offset being CLIENT_REMINDER_OFFSET_HOURS or 24 when unset. */
  function WindowStart(now: int, configured: Option<int>): int {
    var hours := if configured.Some? then configured.value else DefaultOffsetHours;
    now + hours * 3600
  }

  /** The query filter: start in [ws, ws + 1 minute), CONFIRMED, flag still false. */
  predicate Due(a: Appointment, ws: int) {
    ws <= a.start < ws + WindowSeconds && a.status == Confirmed && !a.reminderSent
  }

  /** `if not client_chat_id`: None and the empty string are both missing. */
  predicate HasChatId(a: Appointment) {
    a.clientChatId.Some? && a.clientChatId.value != ""
  }

  /**
   * Building the message reads `appointment.employee.name`; with the
   * employee deleted (SET_NULL) that raises, and the outer `except` ends
   * the command with the rest of the rows untouched.
   */
  predicate Aborts(a: Appointment, ws: int) {
    Due(a, ws) && HasChatId(a) && a.employeeId.None?
  }

  /** One appointment the loop reaches without raising. */
  function Reminded(a: Appointment, ws: int, delivered: set<int>): Appointment {
    if Due(a, ws) && HasChatId(a) && a.id in delivered then a.(reminderSent := true) else a
  }

  /** The table after one run of the command whose window starts at `ws`. */
  function Remind(s: seq<Appointment>, ws: int, delivered: set<int>): seq<Appointment>
    decreases |s|
  {
    if s == [] then []
    else if Aborts(s[0], ws) then s
    else [Reminded(s[0], ws, delivered)] + Remind(s[1..], ws, delivered)
  }

  /** No row before `k` makes the command raise, so the loop reaches row `k`. */
  predicate Reached(s: seq<Appointment>, k: int, ws: int) {
    forall j :: 0 <= j < k && j < |s| ==> !Aborts(s[j], ws)
  }

  /** `handle`: the loop over the table, writing only the reminder flag of the rows it reminds. */
  method SendReminders(appts: array<Appointment>, now: int, configured: Option<int>, delivered: set<int>)
    modifies appts
    ensures appts[..] == Remind(old(appts[..]), WindowStart(now, configured), delivered)
  {
    var offsetHours := if configured.Some? then configured.value else DefaultOffsetHours;
    var windowStart := now + offsetHours * 3600;
    ghost var s := appts[..];
    var i := 0;
    while i < appts.Length
      invariant 0 <= i <= appts.Length
      invariant appts[i..] == s[i..]
      invariant Remind(s, windowStart, delivered) == appts[..i] + Remind(s[i..], windowStart, delivered)
    {
      var a := appts[i];
      ghost var cur := appts[..];
      assert a == s[i] by { assert appts[i..][0] == s[i..][0]; }
      if Due(a, windowStart) && HasChatId(a) {
        if a.employeeId.None? {
          RemindAt(s, i, windowStart, delivered);
          assert appts[..] == appts[..i] + appts[i..];
          break;
        }
        if a.id in delivered {
          appts[i] := a.(reminderSent := true);
        } else {
          assert cur[i := a] == cur;
        }
      } else {
        assert cur[i := a] == cur;
      }
      assert appts[..] == cur[i := Reminded(a, windowStart, delivered)];
      ghost var next := appts[..];
      RemindStep(s, i, windowStart, delivered, cur, next);
      assert appts[i + 1..] == next[i + 1..] && appts[..i + 1] == next[..i + 1];
      i := i + 1;
    }
    if i == appts.Length {
      assert appts[..i] == appts[..] && s[i..] == [];
    }
  }

  /** The loop invariant carried past a row that does not raise: the table gets that row as reminded. */
  lemma RemindStep(s: seq<Appointment>, i: int, ws: int, delivered: set<int>,
                   cur: seq<Appointment>, next: seq<Appointment>)
    requires 0 <= i < |s| && |cur| == |s| && !Aborts(s[i], ws)
    requires cur[i..] == s[i..]
    requires Remind(s, ws, delivered) == cur[..i] + Remind(s[i..], ws, delivered)
    requires next == cur[i := Reminded(s[i], ws, delivered)]
    ensures next[i + 1..] == s[i + 1..]
    ensures Remind(s, ws, delivered) == next[..i + 1] + Remind(s[i + 1..], ws, delivered)
  {
    RemindAt(s, i, ws, delivered);
    assert next[..i + 1] == cur[..i] + [Reminded(s[i], ws, delivered)];
    assert next[i + 1..] == cur[i + 1..] == cur[i..][1..];
  }

  /** The run from row `i` on: it stops at a row that raises, and otherwise handles the row and goes on. */
  lemma RemindAt(s: seq<Appointment>, i: int, ws: int, delivered: set<int>)
    requires 0 <= i < |s|
    ensures Aborts(s[i], ws) ==> Remind(s[i..], ws, delivered) == s[i..]
    ensures !Aborts(s[i], ws) ==> Remind(s[i..], ws, delivered) == [Reminded(s[i], ws, delivered)] + Remind(s[i + 1..], ws, delivered)
  {
    assert s[i..][0] == s[i] && s[i..][1..] == s[i + 1..];
  }

  /**
   * A run writes nothing but the reminder flag, and sets it on exactly the
   * rows it reaches that are due, have a chat id and an employee, and whose
   * send succeeds; every other flag keeps its value.
   */
  lemma {:induction false} RemindFacts(s: seq<Appointment>, ws: int, delivered: set<int>)
    ensures var r := Remind(s, ws, delivered);
      && |r| == |s|
      && (forall k :: 0 <= k < |s| ==> r[k] == s[k].(reminderSent := r[k].reminderSent))
      && (forall k :: 0 <= k < |s| ==>
            (r[k].reminderSent <==>
              s[k].reminderSent
              || (Reached(s, k, ws) && Due(s[k], ws) && HasChatId(s[k])
                  && s[k].employeeId.Some? && s[k].id in delivered)))
    decreases |s|
  {
    if s != [] && !Aborts(s[0], ws) {
      var t := s[1..];
      RemindFacts(t, ws, delivered);
      var r := Remind(s, ws, delivered);
      assert r[1..] == Remind(t, ws, delivered);
      forall k | 1 <= k < |s|
        ensures Reached(s, k, ws) <==> Reached(t, k - 1, ws)
      {
        if Reached(t, k - 1, ws) {
          forall j | 0 <= j < k && j < |s|
            ensures !Aborts(s[j], ws)
          {
            if j > 0 {
              assert s[j] == t[j - 1];
            }
          }
        }
        if Reached(s, k, ws) {
          forall j | 0 <= j < k - 1 && j < |t|
            ensures !Aborts(t[j], ws)
          {
            assert t[j] == s[j + 1];
          }
        }
      }
      forall k | 1 <= k < |s|
        ensures r[k] == s[k].(reminderSent := r[k].reminderSent)
        ensures r[k].reminderSent <==>
              s[k].reminderSent
              || (Reached(s, k, ws) && Due(s[k], ws) && HasChatId(s[k])
                  && s[k].employeeId.Some? && s[k].id in delivered)
      {
        assert r[k] == Remind(t, ws, delivered)[k - 1] && s[k] == t[k - 1];
      }
    }
  }

  /** An appointment whose send fails stays due, so the next run over the same window tries it again. */
  lemma FailedSendStaysDue(s: seq<Appointment>, ws: int, delivered: set<int>, k: int)
    requires 0 <= k < |s| && Due(s[k], ws) && s[k].id !in delivered
    ensures |Remind(s, ws, delivered)| == |s| && Remind(s, ws, delivered)[k] == s[k]
  {
    RemindFacts(s, ws, delivered);
  }

  /** Once reminded, an appointment is never selected again, whatever the window. */
  lemma RemindedNotDueAgain(s: seq<Appointment>, ws: int, delivered: set<int>, k: int, later: int)
    requires 0 <= k < |s| && !s[k].reminderSent
    requires |Remind(s, ws, delivered)| == |s| && Remind(s, ws, delivered)[k].reminderSent
    ensures !Due(Remind(s, ws, delivered)[k], later)
    ensures Due(s[k], ws) && s[k].id in delivered
  {
    RemindFacts(s, ws, delivered);
  }

  /** A second run over the same window with the same send outcomes changes nothing. */
  lemma {:induction false} RemindIdempotent(s: seq<Appointment>, ws: int, delivered: set<int>)
    ensures Remind(Remind(s, ws, delivered), ws, delivered) == Remind(s, ws, delivered)
    decreases |s|
  {
    if s != [] && !Aborts(s[0], ws) {
      var r := Remind(s, ws, delivered);
      RemindIdempotent(s[1..], ws, delivered);
      assert r[0] == Reminded(s[0], ws, delivered);
      assert !Aborts(r[0], ws);
      assert r[1..] == Remind(s[1..], ws, delivered);
    }
  }

  /** Unconfigured, the window opens exactly one day ahead. */
  lemma DefaultWindowIsOneDayAhead(now: int)
    ensures WindowStart(now, None) == now + 86400
    ensures forall a: Appointment :: Due(a, WindowStart(now, None)) ==> now + 86400 <= a.start < now + 86460
  {
  }

  /**
   * Run once a minute from `first`, the windows tile the future: an
   * appointment that starts at or after the first window falls in the window
   * of exactly one run.
   */
  lemma WindowsTile(first: int, configured: Option<int>, t: int)
    requires t >= WindowStart(first, configured)
    ensures var n := (t - WindowStart(first, configured)) / WindowSeconds;
      && n >= 0
      && WindowStart(first + WindowSeconds * n, configured) <= t < WindowStart(first + WindowSeconds * n, configured) + WindowSeconds
      && forall j: int {:trigger WindowStart(first + WindowSeconds * j, configured)} :: j != n ==>
           !(WindowStart(first + WindowSeconds * j, configured) <= t < WindowStart(first + WindowSeconds * j, configured) + WindowSeconds)
  {
    var w0 := WindowStart(first, configured);
    var n := (t - w0) / WindowSeconds;
    forall j: int | j != n
      ensures !(WindowStart(first + WindowSeconds * j, configured) <= t < WindowStart(first + WindowSeconds * j, configured) + WindowSeconds)
    {
      assert WindowStart(first + WindowSeconds * j, configured) == w0 + WindowSeconds * j;
      if j < n {
        assert WindowSeconds * j + WindowSeconds <= WindowSeconds * n;
      } else {
        assert WindowSeconds * j >= WindowSeconds * n + WindowSeconds;
      }
    }
  }
}
