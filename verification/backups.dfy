/** The popup's backup bookkeeping (popup/popup.js): the bounded `backups`
    history, the daily automatic backup, restoring the newest snapshot and the
    start-up integrity check with its redundant mirror write. */
module Backups {
  import opened Results
  import opened Seqs
  import opened Favorites

  /** At most this many snapshots are kept (popup/popup.js:1095). */
  const MaxBackups: nat := 5

  /** One day in milliseconds, the automatic backup interval (popup/popup.js:1149). */
  const AutoBackupInterval: int := 24 * 60 * 60 * 1000

  /** The snapshot createBackup takes of the current store at time `now`. */
  function SnapshotOf(st: Store, now: int): Snapshot {
    Snapshot(OrEmpty(st.favorites), st.categories, now)
  }

  /** createBackup: pushes a snapshot of the store in front of the history and
      cuts the history to five, stamping `lastBackup`. */
  function CreateBackup(st: Store, now: int): (r: Store)
    ensures |r.backups| == Min(|st.backups| + 1, MaxBackups)
    ensures r.backups[0] == SnapshotOf(st, now)
    ensures forall i :: 1 <= i < |r.backups| ==> r.backups[i] == st.backups[i - 1]
    ensures r.lastBackup == Some(now)
    ensures r.(backups := st.backups, lastBackup := st.lastBackup) == st
  {
    var pushed := [SnapshotOf(st, now)] + st.backups;
    st.(backups := if |pushed| > MaxBackups then pushed[..MaxBackups] else pushed,
        lastBackup := Some(now))
  }

  /** Starting from any history, a run of backups never lets it exceed five. */
  lemma {:induction false} BackupHistoryBounded(st: Store, times: seq<int>)
    requires |st.backups| <= MaxBackups
    ensures |CreateBackups(st, times).backups| <= MaxBackups
    decreases |times|
  {
    if |times| > 0 {
      BackupHistoryBounded(CreateBackup(st, times[0]), times[1..]);
    }
  }

  /** Successive createBackup calls at the given times. */
  function CreateBackups(st: Store, times: seq<int>): Store
    decreases |times|
  {
    if |times| == 0 then st else CreateBackups(CreateBackup(st, times[0]), times[1..])
  }

  /** The newest snapshot of five or more consecutive backups comes from the last
      one, and the history then holds exactly the five latest, newest first. */
  lemma FiveBackupsFillHistory(st: Store, t: seq<int>)
    requires |t| == 5
    ensures var r := CreateBackups(st, t);
      |r.backups| == MaxBackups
      && forall i :: 0 <= i < MaxBackups ==> r.backups[i].taken == t[4 - i]
  {
    var s1 := CreateBackup(st, t[0]);
    var s2 := CreateBackup(s1, t[1]);
    var s3 := CreateBackup(s2, t[2]);
    var s4 := CreateBackup(s3, t[3]);
    var s5 := CreateBackup(s4, t[4]);
    assert CreateBackups(s5, t[5..]) == s5;
    assert CreateBackups(s4, t[4..]) == s5 by { assert t[4..][1..] == t[5..]; }
    assert CreateBackups(s3, t[3..]) == s5 by { assert t[3..][1..] == t[4..]; }
    assert CreateBackups(s2, t[2..]) == s5 by { assert t[2..][1..] == t[3..]; }
    assert CreateBackups(s1, t[1..]) == s5 by { assert t[1..][1..] == t[2..]; }
  }

  /** The automatic backup is due when none was recorded or the last one is
      strictly more than a day old. */
  predicate AutoBackupDue(last: Option<int>, now: int) {
    last.None? || now - last.value > AutoBackupInterval
  }

  /** autoBackup: a backup plus a new `lastAutoBackup` stamp when due, nothing
      otherwise. */
  function AutoBackup(st: Store, now: int): (r: Store)
    ensures AutoBackupDue(st.lastAutoBackup, now) ==>
      |r.backups| == Min(|st.backups| + 1, MaxBackups)
      && r.backups[0] == SnapshotOf(st, now) && r.lastAutoBackup == Some(now)
    ensures AutoBackupDue(st.lastAutoBackup, now) ==>
      && r.lastBackup == Some(now)
      && forall i :: 1 <= i < |r.backups| ==> r.backups[i] == st.backups[i - 1]
    ensures !AutoBackupDue(st.lastAutoBackup, now) ==> r == st
    ensures r.(backups := st.backups, lastBackup := st.lastBackup,
               lastAutoBackup := st.lastAutoBackup) == st
  {
    if AutoBackupDue(st.lastAutoBackup, now) then
      CreateBackup(st, now).(lastAutoBackup := Some(now))
    else st
  }

  /** Two saves within one day of an automatic backup add no second snapshot;
      a save more than a day later adds one. */
  lemma AutoBackupOncePerDay(st: Store, t1: int, t2: int)
    requires AutoBackupDue(st.lastAutoBackup, t1)
    ensures t1 <= t2 <= t1 + AutoBackupInterval ==>
      AutoBackup(AutoBackup(st, t1), t2) == AutoBackup(st, t1)
    ensures t2 > t1 + AutoBackupInterval ==>
      AutoBackup(AutoBackup(st, t1), t2).backups[0].taken == t2
  {
  }

  /** restoreFromBackup: after confirmation, the newest snapshot replaces the
      favorites and categories; with no snapshot nothing happens. */
  function RestoreFromBackup(st: Store, confirmed: bool): (r: Store)
    ensures |st.backups| == 0 || !confirmed ==> r == st
    ensures |st.backups| > 0 && confirmed ==>
      r.favorites == st.backups[0].favorites && r.categories == st.backups[0].categories
    ensures r.(favorites := st.favorites, categories := st.categories) == st
  {
    if |st.backups| == 0 || !confirmed then st
    else st.(favorites := st.backups[0].favorites, categories := st.backups[0].categories)
  }

  /** Restoring right after a backup brings back what was backed up. */
  lemma BackupRestoreRoundTrip(st: Store, now: int)
    ensures var r := RestoreFromBackup(CreateBackup(st, now), true);
      r.favorites == OrEmpty(st.favorites) && r.categories == st.categories
  {
  }

  /** createRedundantBackup: the same snapshot under all three mirror keys. */
  function RedundantBackup(st: Store, now: int): (r: Store)
    ensures |r.mirrors| == 3
    ensures forall i :: 0 <= i < 3 ==> r.mirrors[i] == SnapshotOf(st, now)
    ensures r.(mirrors := st.mirrors) == st
  {
    var copy := SnapshotOf(st, now);
    st.(mirrors := [copy, copy, copy])
  }

  /** checkDataIntegrity: when `favorites` is missing or not an array, recover
      favorites and categories from the newest snapshot or reset them to empty
      lists; then write the redundant mirrors. */
  function CheckDataIntegrity(st: Store, now: int): (r: Store)
    ensures st.favorites.Items? ==>
      r.favorites == st.favorites && r.categories == st.categories
    ensures !st.favorites.Items? && |st.backups| > 0 ==>
      r.favorites == OrEmpty(st.backups[0].favorites) && r.categories == st.backups[0].categories
    ensures !st.favorites.Items? && |st.backups| == 0 ==>
      r.favorites == Items([]) && r.categories == []
    ensures |r.mirrors| == 3
    ensures forall i :: 0 <= i < 3 ==> r.mirrors[i] == Snapshot(r.favorites, r.categories, now)
    ensures r.(favorites := st.favorites, categories := st.categories, mirrors := st.mirrors) == st
  {
    var recovered :=
      if st.favorites.Items? then st
      else if |st.backups| > 0 then
        st.(favorites := OrEmpty(st.backups[0].favorites), categories := st.backups[0].categories)
      else st.(favorites := Items([]), categories := []);
    RedundantBackup(recovered, now)
  }

  /** After the check, `favorites` is an array unless the only source of recovery,
      the newest snapshot, is itself not an array. */
  lemma IntegrityCheckRepairs(st: Store, now: int)
    ensures CheckDataIntegrity(st, now).favorites.Items? <==>
      st.favorites.Items? || |st.backups| == 0 || st.backups[0].favorites != Malformed
  {
  }

  /** A snapshot taken by createBackup is never malformed when the store was sound,
      so a store that went through a backup and then lost its favorites is
      recovered to exactly the backed-up list. */
  lemma RecoverFromOwnBackup(st: Store, t1: int, t2: int)
    requires st.favorites.Items?
    ensures var broken := CreateBackup(st, t1).(favorites := Missing);
      CheckDataIntegrity(broken, t2).favorites == st.favorites
      && CheckDataIntegrity(broken, t2).categories == st.categories
  {
  }

  /** Running the check twice changes nothing the first run did not. */
  lemma IntegrityCheckIdempotent(st: Store, now: int)
    requires CheckDataIntegrity(st, now).favorites.Items?
    ensures CheckDataIntegrity(CheckDataIntegrity(st, now), now) == CheckDataIntegrity(st, now)
  {
  }
}
