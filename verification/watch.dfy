/** The watch loop of src/watch.ts (`startWatch`), with its I/O taken out:
    the per-iteration decision (change, beep, notification, exit), what is
    displayed with difference highlighting, the pause before the next run,
    and the once-only terminal cleanup. Command execution, the terminal and
    the clock are inputs. */
module Watch {

  import opened Wrappers
  import opened Strings
  import opened Types
  import Ansi
  import Highlight
  import Diff
  import Email
  import Cfg = Config

  // =====================================================================
  // The decision taken after each run of the command

  /** What one iteration does besides drawing the screen. */
  datatype Effects = Effects(
    changed: bool,
    beep: bool,
    notification: Option<Email.Change>,
    exit: Option<int>)

  /** An e-mail sender exists when a recipient and an API key are set. */
  predicate SenderConfigured(opts: WatchOptions) {
    Cfg.Truthy(opts.email) && Cfg.Truthy(opts.resendApiKey)
  }

  function CommandText(opts: WatchOptions): string {
    Join(opts.command, ' ')
  }

  function Subject(opts: WatchOptions): string {
    opts.subject.GetOr("watch+: change detected in '" + CommandText(opts) + "'")
  }

  /** The decision for one run, given the previous run's stripped output
      (`None` on the first iteration). */
  function Decide(opts: WatchOptions, previousStripped: Option<string>, run: ExecutionResult)
    : (r: Effects)
    // A change needs a previous output; colours do not count.
    ensures r.changed <==>
      previousStripped.Some? && previousStripped.value != Ansi.StripAnsi(run.stdout)
    ensures r.beep <==> r.changed && opts.beep
    // A notification goes out on every change once sender and addresses are set.
    ensures r.notification.Some? <==> r.changed && SenderConfigured(opts) && Cfg.Truthy(opts.from)
    ensures r.notification.Some? ==>
      r.notification.value == Email.Change(opts.email.value, opts.from.value, Subject(opts),
        previousStripped.value, Ansi.StripAnsi(run.stdout), CommandText(opts), opts.cooldown)
    // --chgexit takes precedence and exits with 0.
    ensures r.changed && opts.chgexit ==> r.exit == Some(0)
    // --errexit exits with the command's own status, changed or not.
    ensures !(r.changed && opts.chgexit) ==>
      (r.exit.Some? <==> opts.errexit && run.exitCode != 0)
    ensures !(r.changed && opts.chgexit) && r.exit.Some? ==> r.exit.value == run.exitCode
  {
    var currentStripped := Ansi.StripAnsi(run.stdout);
    var changed := previousStripped.Some? && Diff.HasChanged(previousStripped.value, currentStripped);
    var notification :=
      if changed && SenderConfigured(opts) && Cfg.Truthy(opts.email) && Cfg.Truthy(opts.from)
      then Some(Email.Change(opts.email.value, opts.from.value, Subject(opts),
                             previousStripped.value, currentStripped, CommandText(opts), opts.cooldown))
      else None;
    var exit :=
      if changed && opts.chgexit then Some(0)
      else if opts.errexit && run.exitCode != 0 then Some(run.exitCode)
      else None;
    Effects(changed, changed && opts.beep, notification, exit)
  }

  /** The first iteration never reports a change, so it neither beeps,
      notifies nor exits on change. */
  lemma FirstIterationUnchanged(opts: WatchOptions, run: ExecutionResult)
    ensures var r := Decide(opts, None, run);
      !r.changed && !r.beep && r.notification.None?
      && r.exit == (if opts.errexit && run.exitCode != 0 then Some(run.exitCode) else None)
  {
  }

  // =====================================================================
  // A run of the loop

  /** The outcome of feeding successive command runs to the loop: the
      status the process exits with, if it does, and the notifications
      handed to the e-mail sender, in order. */
  datatype Outcome = Outcome(exit: Option<int>, notifications: seq<Email.Change>)

  function Stripped(run: ExecutionResult): string {
    Ansi.StripAnsi(run.stdout)
  }

  /** The loop from a given previous stripped output, over the runs the
      command produces, stopping at the first exit. */
  function Loop(opts: WatchOptions, previous: Option<string>, runs: seq<ExecutionResult>): (r: Outcome)
    // At most one notification per run; an exit needs a run to decide it.
    ensures |r.notifications| <= |runs|
    ensures r.exit.Some? ==> |runs| > 0
    decreases |runs|
  {
    if |runs| == 0 then Outcome(None, [])
    else
      var d := Decide(opts, previous, runs[0]);
      var sent := if d.notification.Some? then [d.notification.value] else [];
      if d.exit.Some? then Outcome(d.exit, sent)
      else
        var rest := Loop(opts, Some(Stripped(runs[0])), runs[1..]);
        Outcome(rest.exit, sent + rest.notifications)
  }

  /** The previous stripped output the loop holds at iteration `k`. */
  function PreviousAt(runs: seq<ExecutionResult>, k: nat): Option<string>
    requires k <= |runs|
  {
    if k == 0 then None else Some(Stripped(runs[k - 1]))
  }

  function DecisionAt(opts: WatchOptions, runs: seq<ExecutionResult>, k: nat): Effects
    requires k < |runs|
  {
    Decide(opts, PreviousAt(runs, k), runs[k])
  }

  /** The process exits at the first iteration whose decision is to exit,
      with that decision's status, and runs forever (as far as the given
      runs go) when there is none. */
  lemma {:induction false} LoopExit(opts: WatchOptions, runs: seq<ExecutionResult>)
    ensures var out := Loop(opts, None, runs);
      && (out.exit.None? <==> forall k :: 0 <= k < |runs| ==> DecisionAt(opts, runs, k).exit.None?)
      && (out.exit.Some? ==>
            exists k :: (0 <= k < |runs| && DecisionAt(opts, runs, k).exit == out.exit
                         && forall j :: 0 <= j < k ==> DecisionAt(opts, runs, j).exit.None?))
  {
    LoopExitFrom(opts, None, runs, [], runs);
  }

  /** LoopExit, generalised to a loop resumed after the runs `done`. */
  lemma {:induction false} LoopExitFrom(opts: WatchOptions, previous: Option<string>,
                                        runs: seq<ExecutionResult>, done: seq<ExecutionResult>,
                                        all: seq<ExecutionResult>)
    requires all == done + runs
    requires previous == PreviousAt(all, |done|)
    requires forall j :: 0 <= j < |done| ==> DecisionAt(opts, all, j).exit.None?
    ensures var out := Loop(opts, previous, runs);
      && (out.exit.None? <==> forall k :: 0 <= k < |all| ==> DecisionAt(opts, all, k).exit.None?)
      && (out.exit.Some? ==>
            exists k :: (0 <= k < |all| && DecisionAt(opts, all, k).exit == out.exit
                         && forall j :: 0 <= j < k ==> DecisionAt(opts, all, j).exit.None?))
    decreases |runs|
  {
    if |runs| == 0 {
      assert all == done;
    } else {
      var i := |done|;
      assert all[i] == runs[0];
      var d := Decide(opts, previous, runs[0]);
      assert d == DecisionAt(opts, all, i);
      if d.exit.None? {
        var done' := done + [runs[0]];
        assert all == done' + runs[1..];
        assert Some(Stripped(runs[0])) == PreviousAt(all, |done'|);
        LoopExitFrom(opts, Some(Stripped(runs[0])), runs[1..], done', all);
      }
    }
  }

  /** The stripped output before run `k`: `previous` for the first. */
  function Before(previous: Option<string>, runs: seq<ExecutionResult>, k: nat): Option<string>
    requires k < |runs|
  {
    if k == 0 then previous else Some(Stripped(runs[k - 1]))
  }

  /** Every notification the loop sends reports two consecutive runs whose
      stripped outputs differ, old before new. */
  lemma {:induction false} LoopNotifiesConsecutive(opts: WatchOptions, previous: Option<string>,
                                                   runs: seq<ExecutionResult>, n: Email.Change)
    requires n in Loop(opts, previous, runs).notifications
    ensures n.oldOutput != n.newOutput
    ensures exists k :: (0 <= k < |runs| && n.newOutput == Stripped(runs[k])
                         && Some(n.oldOutput) == Before(previous, runs, k))
    decreases |runs|
  {
    var d := Decide(opts, previous, runs[0]);
    var sent := if d.notification.Some? then [d.notification.value] else [];
    if n in sent {
      assert n == d.notification.value;
      assert n.newOutput == Stripped(runs[0]) && Some(n.oldOutput) == Before(previous, runs, 0);
    } else {
      var rest := Loop(opts, Some(Stripped(runs[0])), runs[1..]);
      assert n in rest.notifications;
      LoopNotifiesConsecutive(opts, Some(Stripped(runs[0])), runs[1..], n);
      var k :| 0 <= k < |runs[1..]| && n.newOutput == Stripped(runs[1..][k])
        && Some(n.oldOutput) == Before(Some(Stripped(runs[0])), runs[1..], k);
      assert runs[1..][k] == runs[k + 1];
      if k > 0 {
        assert runs[1..][k - 1] == runs[k];
      }
      assert Before(Some(Stripped(runs[0])), runs[1..], k) == Before(previous, runs, k + 1);
    }
  }

  /** The loop passes every notification to the sender with
      `sendChangeNotification` and never calls `flushPending`; so every
      message that reaches the transport diffs the stripped outputs of two
      consecutive runs. */
  lemma WatchEmailsDiffConsecutiveRuns(opts: WatchOptions, runs: seq<ExecutionResult>,
                                       times: seq<int>, deliveries: seq<Email.Delivery>,
                                       diff: Email.DiffFn, m: Email.Message)
    requires |times| == |deliveries| == |Loop(opts, None, runs).notifications|
    requires m in Email.Run(Email.INITIAL, NotifyCalls(Loop(opts, None, runs).notifications, times, deliveries), diff).1
    ensures exists k :: (1 <= k < |runs|
                         && m.text == diff(Stripped(runs[k - 1]), Stripped(runs[k]), CommandText(opts))
                         && Stripped(runs[k - 1]) != Stripped(runs[k]))
  {
    var notes := Loop(opts, None, runs).notifications;
    var n := SentNotification(notes, times, deliveries, diff, m);
    LoopNotifiesConsecutive(opts, None, runs, n);
    LoopNotificationCommand(opts, None, runs, n);
    var k :| 0 <= k < |runs| && n.newOutput == Stripped(runs[k])
      && Some(n.oldOutput) == Before(None, runs, k);
    assert k >= 1;
    assert m.text == diff(n.oldOutput, n.newOutput, n.command);
  }

  /** The notification a message sent during a notify-only run came from. */
  lemma SentNotification(notes: seq<Email.Change>, times: seq<int>, deliveries: seq<Email.Delivery>,
                         diff: Email.DiffFn, m: Email.Message)
    returns (n: Email.Change)
    requires |times| == |deliveries| == |notes|
    requires m in Email.Run(Email.INITIAL, NotifyCalls(notes, times, deliveries), diff).1
    ensures n in notes && m == Email.Sent(n, diff)
  {
    var calls := NotifyCalls(notes, times, deliveries);
    Email.NotifyOnlySendsOwnChanges(Email.INITIAL, calls, diff);
    var i :| 0 <= i < |calls| && calls[i].Notify? && m == Email.Sent(calls[i].change, diff);
    n := notes[i];
  }

  /** Notifications become `sendChangeNotification` calls at the given
      times with the given transport outcomes. */
  function NotifyCalls(notes: seq<Email.Change>, times: seq<int>, deliveries: seq<Email.Delivery>)
    : (calls: seq<Email.Call>)
    requires |times| == |deliveries| == |notes|
    ensures |calls| == |notes|
    ensures forall i :: 0 <= i < |calls| ==> calls[i] == Email.Notify(notes[i], times[i], deliveries[i])
  {
    seq(|notes|, i requires 0 <= i < |notes| => Email.Notify(notes[i], times[i], deliveries[i]))
  }

  /** Notifications name the watched command. */
  lemma {:induction false} LoopNotificationCommand(opts: WatchOptions, previous: Option<string>,
                                                   runs: seq<ExecutionResult>, n: Email.Change)
    requires n in Loop(opts, previous, runs).notifications
    ensures n.command == CommandText(opts)
    decreases |runs|
  {
    var d := Decide(opts, previous, runs[0]);
    if !(d.notification.Some? && n == d.notification.value) {
      LoopNotificationCommand(opts, Some(Stripped(runs[0])), runs[1..], n);
    }
  }

  // =====================================================================
  // What is displayed

  /** The text shown for a run: the plain output, or with --differences and
      a previous run, the output with changed lines highlighted. With
      --color the raw outputs are compared and shown, otherwise the
      stripped ones. */
  method DisplayOutput(opts: WatchOptions, previousOutput: Option<string>,
                       previousStripped: Option<string>, currentOutput: string,
                       highlights: set<nat>)
    returns (display: string, highlights': set<nat>)
    requires previousOutput.Some? ==> previousStripped.Some?
    ensures var current := if opts.color then currentOutput else Ansi.StripAnsi(currentOutput);
      (opts.differences == Off || previousOutput.None?) ==> display == current && highlights' == highlights
    ensures opts.differences != Off && previousOutput.Some? ==>
      var oldLines := Split(if opts.color then previousOutput.value else previousStripped.value, NEWLINE);
      var newLines := Split(if opts.color then currentOutput else Ansi.StripAnsi(currentOutput), NEWLINE);
      && highlights' == highlights + Highlight.ChangedIndices(oldLines, newLines)
      && Split(display, NEWLINE) == Highlight.Displayed(oldLines, newLines, opts.differences == Permanent, highlights')
  {
    var currentStripped := Ansi.StripAnsi(currentOutput);
    if opts.differences != Off && previousOutput.Some? {
      var oldLines := Split(if opts.color then previousOutput.value else previousStripped.value, NEWLINE);
      var newLines := Split(if opts.color then currentOutput else currentStripped, NEWLINE);
      display, highlights' := Highlight.HighlightDiffs(oldLines, newLines, opts.differences == Permanent, highlights);
      SplitPiecesFree(if opts.color then previousOutput.value else previousStripped.value, NEWLINE);
      SplitPiecesFree(if opts.color then currentOutput else currentStripped, NEWLINE);
      Highlight.DisplayedSplit(oldLines, newLines, opts.differences == Permanent, highlights');
    } else {
      display := if opts.color then currentOutput else currentStripped;
      highlights' := highlights;
    }
  }

  // =====================================================================
  // Pacing

  /** The pause after a run, in milliseconds: the interval, less the run's
      own duration (but not below zero) with --precise. */
  function SleepMs(opts: WatchOptions, duration: real): (ms: real)
    ensures !opts.precise ==> ms == opts.interval * 1000.0
    ensures opts.precise ==> ms >= 0.0 && ms >= opts.interval * 1000.0 - duration
    ensures opts.precise && duration >= 0.0 && opts.interval >= 0.0 ==> ms <= opts.interval * 1000.0
    // A run shorter than the interval leaves exactly the rest of it.
    ensures opts.precise && opts.interval * 1000.0 >= duration ==> ms == opts.interval * 1000.0 - duration
  {
    var intervalMs := opts.interval * 1000.0;
    if opts.precise then (if intervalMs - duration >= 0.0 then intervalMs - duration else 0.0)
    else intervalMs
  }

  /** With --precise, runs start one interval apart unless a run takes
      longer than the interval, in which case the next starts at once. */
  lemma PreciseCadence(opts: WatchOptions, duration: real)
    requires opts.precise && duration >= 0.0
    ensures var period := duration + SleepMs(opts, duration);
      period == (if opts.interval * 1000.0 >= duration then opts.interval * 1000.0 else duration)
  {
  }

  // =====================================================================
  // Terminal cleanup

  const ALT_SCREEN_OFF: string := [ESC] + "[?1049l"
  const CURSOR_SHOW: string := [ESC] + "[?25h"
  const RESTORE: string := CURSOR_SHOW + ALT_SCREEN_OFF

  /** The `cleanedUp` flag, whether stdin is a raw-mode terminal, and what
      has been written to stdout. */
  datatype Terminal = Terminal(cleanedUp: bool, rawInput: bool, written: seq<string>)

  /** cleanup: restores the cursor and the main screen and leaves raw mode,
      the first time only. */
  function Cleanup(t: Terminal): (t': Terminal)
    ensures t.cleanedUp ==> t' == t
    ensures !t.cleanedUp ==> t' == Terminal(true, false, t.written + [RESTORE])
  {
    if t.cleanedUp then t
    else Terminal(true, false, t.written + [RESTORE])
  }

  function CleanupTimes(t: Terminal, n: nat): Terminal
    decreases n
  {
    if n == 0 then t else CleanupTimes(Cleanup(t), n - 1)
  }

  /** However many of the exit paths (signal, `q`, process exit, uncaught
      error) call cleanup, the restore sequence is written exactly once. */
  lemma {:induction false} CleanupOnce(t: Terminal, n: nat)
    requires !t.cleanedUp && n >= 1
    ensures CleanupTimes(t, n) == Terminal(true, false, t.written + [RESTORE])
  {
    CleanupIdle(Cleanup(t), n - 1);
  }

  lemma {:induction false} CleanupIdle(t: Terminal, n: nat)
    requires t.cleanedUp
    ensures CleanupTimes(t, n) == t
  {
    if n > 0 {
      CleanupIdle(Cleanup(t), n - 1);
    }
  }
}
