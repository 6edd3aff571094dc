/** The notification ledger: every signal the service raises is archived,
    newest first, in a history that keeps only the latest 50, and is handed
    to the registered toast callback when there is one. */
module Notifications {
  import opened Wrappers
  import opened Types
  import opened RecordStore
  import Seqs

  const HistoryLimit: nat := 50

  /** What the registered callback receives. */
  datatype Delivery = Delivery(message: string, kind: ToastType)

  /** `setNotifyCallback`: from now on notifications are also delivered. */
  function SetNotifyCallback(s: Store): (r: Store)
    ensures r.hasCallback
    ensures r == s.(hasCallback := r.hasCallback)
  {
    s.(hasCallback := true)
  }

  /** `notify(message, kind)`: archives one entry (with the given clock
      readings as id and timestamp) in front of the history, keeps the 50
      newest, and delivers the same message and kind to the callback when
      one is set. The source defaults `kind` to info. */
  function Notify(s: Store, message: string, kind: ToastType, id: string, timestamp: string)
    : (r: (Store, Option<Delivery>))
    ensures |r.0.notifications| == Seqs.Min(|s.notifications| + 1, HistoryLimit)
    ensures r.0.notifications[0] == NotificationHistoryEntry(id, message, kind, timestamp)
    ensures forall i :: 1 <= i < |r.0.notifications| ==> r.0.notifications[i] == s.notifications[i - 1]
    ensures r.1.Some? <==> s.hasCallback
    ensures r.1.Some? ==> r.1.value == Delivery(message, kind)
    ensures r.0 == s.(notifications := r.0.notifications)
  {
    var entry := NotificationHistoryEntry(id, message, kind, timestamp);
    var history := Seqs.Take([entry] + s.notifications, HistoryLimit);
    (s.(notifications := history), if s.hasCallback then Some(Delivery(message, kind)) else None)
  }

  /** `clearNotificationHistory`: empties the history. */
  function ClearNotificationHistory(s: Store): (r: Store)
    ensures r.notifications == []
    ensures r == s.(notifications := [])
  {
    s.(notifications := [])
  }

  /** The store after raising the given entries in order. */
  function NotifyAll(s: Store, entries: seq<NotificationHistoryEntry>): Store
    decreases |entries|
  {
    if |entries| == 0 then s
    else
      var e := entries[0];
      NotifyAll(Notify(s, e.message, e.kind, e.id, e.timestamp).0, entries[1..])
  }

  /** After any series of notifications the history is the 50 newest of
      everything raised, newest first: the new entries in reverse order of
      raising, then the old history. The stored history starts within the
      limit, as only `notify` and `clearNotificationHistory` write it. */
  lemma {:induction false} NotifyAllKeepsNewest(s: Store, entries: seq<NotificationHistoryEntry>)
    requires |s.notifications| <= HistoryLimit
    ensures NotifyAll(s, entries).notifications == Seqs.Take(Seqs.Reverse(entries) + s.notifications, HistoryLimit)
    ensures |NotifyAll(s, entries).notifications| <= HistoryLimit
    decreases |entries|
  {
    if |entries| == 0 {
      assert Seqs.Reverse(entries) + s.notifications == s.notifications;
    } else {
      var e := entries[0];
      var s1 := Notify(s, e.message, e.kind, e.id, e.timestamp).0;
      assert e == NotificationHistoryEntry(e.id, e.message, e.kind, e.timestamp);
      assert s1.notifications == Seqs.Take([e] + s.notifications, HistoryLimit);
      NotifyAllKeepsNewest(s1, entries[1..]);
      Seqs.TakeAppendTake(Seqs.Reverse(entries[1..]), [e] + s.notifications, HistoryLimit);
      assert Seqs.Reverse(entries) == Seqs.Reverse(entries[1..]) + [e];
      assert Seqs.Reverse(entries[1..]) + ([e] + s.notifications) == Seqs.Reverse(entries) + s.notifications;
    }
  }

  /** Notifications never touch anything but the history. */
  lemma NotifyAllFrame(s: Store, entries: seq<NotificationHistoryEntry>)
    ensures NotifyAll(s, entries) == s.(notifications := NotifyAll(s, entries).notifications)
    decreases |entries|
  {
    if |entries| > 0 {
      var e := entries[0];
      NotifyAllFrame(Notify(s, e.message, e.kind, e.id, e.timestamp).0, entries[1..]);
    }
  }
}
