/**
 * The shared preference the two broadcast receivers exchange, and the
 * receivers themselves. Each `onReceive` is one method that performs the
 * store calls of the source in order; its contract ties the new ledger to
 * the matching Lifecycle transition.
 */
module Receivers {
  import opened Limits
  import opened LedgerRows
  import LegacyDatabase
  import Lifecycle

  /** `Intent.ACTION_BOOT_COMPLETED`. */
  const BootCompleted: string := "android.intent.action.BOOT_COMPLETED"

  /**
   * The "pedometer" shared preferences. A removed key reads as its default,
   * so `correctShutdown == false` stands for both "false" and "absent".
   */
  class Preferences {
    var correctShutdown: bool

    constructor ()
      ensures !correctShutdown
    {
      correctShutdown := false;
    }
  }

  /**
   * `BootReceiver.onReceive`: recover the saved reading after an unclean
   * shutdown, purge negative offsets, reset the sentinel, clear the flag.
   * Returns whether the sensor service is (re)started.
   */
  method OnBootReceive(action: string, db: LegacyDatabase.Database, prefs: Preferences) returns (serviceStarted: bool)
    modifies db, prefs
    ensures action != BootCompleted ==> !serviceStarted && db.rows == old(db.rows) && prefs.correctShutdown == old(prefs.correctShutdown)
    ensures action == BootCompleted ==> serviceStarted && db.rows == Lifecycle.Boot(old(db.rows), old(prefs.correctShutdown)) && !prefs.correctShutdown
    ensures action == BootCompleted ==> db.CurrentSteps() == 0 && forall i :: 0 <= i < |db.rows| ==> db.rows[i].steps >= 0
  {
    if action != BootCompleted {
      return false;
    }
    if !prefs.correctShutdown {
      var steps := Max0(db.CurrentSteps());
      db.AddToLastEntry(steps);
    }
    db.RemoveNegativeEntries();
    db.SaveCurrentSteps(0);
    prefs.correctShutdown := false;
    serviceStarted := true;
  }

  /**
   * `ShutdownReceiver.onReceive`: set the flag, then either open today with
   * the saved reading or add the saved reading to the latest entry.
   */
  method OnShutdownReceive(db: LegacyDatabase.Database, prefs: Preferences, today: int)
    modifies db, prefs
    ensures prefs.correctShutdown
    ensures db.rows == Lifecycle.Shutdown(old(db.rows), today)
  {
    prefs.correctShutdown := true;
    if db.GetSteps(today) == IntMin {
      var steps := db.CurrentSteps();
      db.InsertNewDay(today, steps);
    } else {
      db.AddToLastEntry(db.CurrentSteps());
    }
  }

  /**
   * A clean reboot through both receivers: the saved reading is counted once
   * and the result equals a crash followed by a recovering boot.
   */
  method Reboot(db: LegacyDatabase.Database, prefs: Preferences, today: int)
    modifies db, prefs
    requires CurrentSteps(db.rows) >= 0
    requires GetSteps(db.rows, today) == IntMin ==> !HasDate(db.rows, today) && CurrentSteps(db.rows) > 0
    ensures db.rows == Lifecycle.Boot(old(db.rows), false)
    ensures !prefs.correctShutdown
  {
    Lifecycle.ShutdownThenBootCountsOnce(db.rows, today);
    OnShutdownReceive(db, prefs, today);
    var _ := OnBootReceive(BootCompleted, db, prefs);
  }
}
